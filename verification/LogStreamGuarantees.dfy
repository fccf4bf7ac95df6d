/** What the log streaming loop promises its callers: exact windows, complete one-shot output, an end. */
module LogStreamGuarantees {
  import opened Wrappers
  import opened LogServer
  import opened LogStream

  // ----- where a stream starts

  /** A stream anchored by its caller prints only entries behind the anchor. */
  lemma StartsBehindGivenId(params: StreamParams, q: Query, log: Log, turns: seq<Turn>)
    requires Stored(log) && ViewsOf(turns, log) && params.startAfterId.Some?
    ensures Anchor(params, q, turns) == params.startAfterId.value
    ensures forall e :: e in Run(params, q, turns).printed ==> e in log && q(e) && e.id > params.startAfterId.value
  {
    NoGapNoRepeat(params, q, log, turns);
    AfterSound(log, q, Anchor(params, q, turns));
  }

  lemma PastEndsAtMaxId(past: Log, log: Log, e: LogEntry)
    requires Stored(log) && past <= log && e in log
    ensures e in past <==> e.id <= MaxId(past)
  {
    var k :| 0 <= k < |log| && log[k] == e;
    assert forall i :: 0 <= i < |past| ==> past[i] == log[i];
    if k < |past| {
      assert past[k] == e;
    }
  }

  /** Follow mode starts at the end of the log: due is exactly what was not stored when the first answer anchored it. */
  lemma FollowSkipsThePast(params: StreamParams, q: Query, log: Log, turns: seq<Turn>)
    requires Stored(log) && ViewsOf(turns, log) && params.mode == Follow && params.startAfterId.None? && !params.tail
    requires FirstAnswer(turns).Some?
    ensures forall e :: e in After(log, q, Anchor(params, q, turns)) <==> e in log && q(e) && e !in FirstAnswer(turns).value.first
    ensures forall e :: e in Run(params, q, turns).printed ==> e in log && q(e) && e !in FirstAnswer(turns).value.first
  {
    var past := FirstAnswer(turns).value.first;
    FirstAnswerView(turns, log);
    NoGapNoRepeat(params, q, log, turns);
    forall e ensures e in After(log, q, Anchor(params, q, turns)) <==> e in log && q(e) && e !in past {
      AfterMembers(log, q, Anchor(params, q, turns), e);
      if e in log {
        PastEndsAtMaxId(past, log, e);
      }
    }
  }

  /** Any other stream starts at the beginning: every matching entry is due. */
  lemma OthersStartAtBeginning(params: StreamParams, q: Query, log: Log, turns: seq<Turn>)
    requires Stored(log) && params.mode != Follow && params.startAfterId.None? && !params.tail
    ensures forall e :: e in After(log, q, Anchor(params, q, turns)) <==> e in log && q(e)
  {
    AfterSound(log, q, 0);
  }

  // ----- --tail N

  /** `kepler logs --tail n`: one-shot, at most `n` in total, window of `n`. */
  ghost predicate IsTail(params: StreamParams, n: nat) {
    params.tail && n > 0 && params.limit == n && params.maxTotal == Some(n) && params.startAfterId.None?
  }

  ghost predicate WindowAt(turns: seq<Turn>, q: Query, n: nat) {
    FirstAnswer(turns).Some? && |After(FirstAnswer(turns).value.first, q, 0)| >= n
  }

  /** The last `n` matching entries at the moment of the tail request. */
  ghost function Window(turns: seq<Turn>, q: Query, n: nat): Log
    requires WindowAt(turns, q, n)
  {
    var m := After(FirstAnswer(turns).value.first, q, 0);
    m[|m| - n..]
  }

  lemma {:induction false} FirstAnswerView(turns: seq<Turn>, log: Log)
    requires ViewsOf(turns, log) && FirstAnswer(turns).Some?
    ensures FirstAnswer(turns).value.first <= log
  {
    if !turns[0].rpc.Answered? {
      assert forall i :: 0 <= i < |turns| - 1 ==> turns[1..][i] == turns[i + 1];
      FirstAnswerView(turns[1..], log);
    }
  }

  lemma WindowIsDue(params: StreamParams, q: Query, log: Log, turns: seq<Turn>, n: nat)
    requires Stored(log) && IsTail(params, n) && WindowAt(turns, q, n)
    requires FirstAnswer(turns).value.first <= log
    ensures Window(turns, q, n) <= After(log, q, Anchor(params, q, turns))
  {
    TailWindow(log, FirstAnswer(turns).value.first, q, n);
  }

  /** However the window is paged, the output is its beginning, and all of it once the total is reached. */
  lemma TailPrintsWindow(params: StreamParams, q: Query, log: Log, turns: seq<Turn>, n: nat)
    requires Stored(log) && ViewsOf(turns, log) && IsTail(params, n) && WindowAt(turns, q, n)
    ensures Run(params, q, turns).printed <= Window(turns, q, n)
    ensures Run(params, q, turns).remaining == Some(0) ==> Run(params, q, turns).printed == Window(turns, q, n)
  {
    FirstAnswerView(turns, log);
    EveryRunOnCourse(params, q, log, turns);
    WindowIsDue(params, q, log, turns, n);
  }

  /** A tail that ends on an answer at least as fresh as its first one has printed exactly the window. */
  lemma TailIsExact(params: StreamParams, q: Query, log: Log, turns: seq<Turn>, turn: Turn, n: nat)
    requires Stored(log) && ViewsOf(turns + [turn], log) && IsTail(params, n) && WindowAt(turns + [turn], q, n)
    requires Run(params, q, turns).exit.None? && Run(params, q, turns + [turn]).exit == Some(Done)
    requires turn.rpc.Answered? && FirstAnswer(turns + [turn]).value.first <= turn.rpc.view.second
    ensures Run(params, q, turns + [turn]).printed == Window(turns + [turn], q, n)
  {
    var all := turns + [turn];
    TailPrintsWindow(params, q, log, all, n);
    if Run(params, q, all).remaining != Some(0) {
      DrainedPrintedAll(params, q, log, turns, turn);
      ViewsSplit(turns, turn, log);
      PrefixStored(turn.rpc.view.second, log);
      WindowIsDue(params, q, turn.rpc.view.second, all, n);
    }
  }

  /** Fewer than `n` matching entries at the moment of the tail request. */
  ghost predicate ShortAt(turns: seq<Turn>, q: Query, n: nat) {
    FirstAnswer(turns).Some? && |After(FirstAnswer(turns).value.first, q, 0)| < n
  }

  /** A tail for more than there is has every matching entry due. */
  lemma ShortTailStartsAtBeginning(params: StreamParams, q: Query, log: Log, turns: seq<Turn>, n: nat)
    requires Stored(log) && IsTail(params, n) && ShortAt(turns, q, n)
    ensures forall e :: e in After(log, q, Anchor(params, q, turns)) <==> e in log && q(e)
    ensures After(log, q, Anchor(params, q, turns)) == After(log, q, 0)
  {
    ShortTailIsWhole(q, NextRequest(params, Start(params)), FirstAnswer(turns).value.first, log);
  }

  /** It prints every match its last answer saw, up to `n`, if that answer is its freshest. */
  lemma ShortTailIsExact(params: StreamParams, q: Query, turns: seq<Turn>, turn: Turn, n: nat)
    requires IsTail(params, n) && ShortAt(turns + [turn], q, n) && turn.rpc.Answered?
    requires Stored(turn.rpc.view.second) && ViewsOf(turns + [turn], turn.rpc.view.second)
    requires Run(params, q, turns).exit.None? && Run(params, q, turns + [turn]).exit == Some(Done)
    ensures Run(params, q, turns + [turn]).printed == Take(After(turn.rpc.view.second, q, 0), n)
  {
    var log, all := turn.rpc.view.second, turns + [turn];
    ShortTailStartsAtBeginning(params, q, log, all, n);
    EveryRunOnCourse(params, q, log, all);
    if Run(params, q, all).remaining != Some(0) {
      DrainedPrintedAll(params, q, log, turns, turn);
    }
  }

  lemma PrefixStored(view: Log, log: Log)
    requires view <= log && Stored(log)
    ensures Stored(view)
  {
    assert forall i :: 0 <= i < |view| ==> view[i] == log[i];
  }

  // ----- one-shot mode ends

  /** The log has stopped growing: every answer is read from `log`, though requests may still time out. */
  ghost predicate Quiet(turns: seq<Turn>, log: Log) {
    forall i :: 0 <= i < |turns| ==> turns[i].rpc.TimedOut? || QuietTurn(turns[i], log)
  }

  ghost predicate QuietTurn(turn: Turn, log: Log) {
    turn.rpc.Answered? && turn.rpc.view.first == log && turn.rpc.view.second == log && turn.wait != Shutdown
  }

  /** How many of the requests were answered. */
  ghost function Answers(turns: seq<Turn>): nat {
    if turns == [] then 0
    else Answers(turns[..|turns| - 1]) + if turns[|turns| - 1].rpc.Answered? then 1 else 0
  }

  lemma StepFlushBounded(params: StreamParams, q: Query, c: Client, turn: Turn)
    requires c.flushWaits <= MAX_FLUSH_WAITS
    ensures Step(params, q, c, turn).flushWaits <= MAX_FLUSH_WAITS
  {
  }

  lemma {:induction false} FlushWaitsBounded(params: StreamParams, q: Query, turns: seq<Turn>)
    ensures Run(params, q, turns).flushWaits <= MAX_FLUSH_WAITS
  {
    if turns != [] {
      var init, turn := turns[..|turns| - 1], turns[|turns| - 1];
      FlushWaitsBounded(params, q, init);
      StepFlushBounded(params, q, Run(params, q, init), turn);
    }
  }

  /** Entries left to read, and within one stall the flush waits left. */
  ghost function Measure(q: Query, log: Log, c: Client): int {
    var left := if c.lastId.Some? then |After(log, q, c.lastId.value)| else |log|;
    left * (MAX_FLUSH_WAITS + 1) + MAX_FLUSH_WAITS - c.flushWaits
  }

  lemma MeasureBounded(q: Query, log: Log, c: Client)
    requires c.flushWaits <= MAX_FLUSH_WAITS
    ensures 0 <= Measure(q, log, c) < (|log| + 1) * (MAX_FLUSH_WAITS + 1)
  {
    if c.lastId.Some? {
      AfterBounded(log, q, c.lastId.value);
    }
  }

  lemma QuietTurnProgresses(params: StreamParams, q: Query, log: Log, c: Client, turn: Turn)
    requires params.mode == All && params.limit > 0 && Stored(log) && QuietTurn(turn, log)
    requires c.exit.None? && c.flushWaits <= MAX_FLUSH_WAITS
    ensures var c' := Step(params, q, c, turn);
            && c'.flushWaits <= MAX_FLUSH_WAITS
            && (c'.exit == Some(Done) || (c'.exit.None? && Measure(q, log, c') < Measure(q, log, c)))
  {
    var req := NextRequest(params, c);
    var data := HandleLogsStream(q, req, turn.rpc.view);
    var cursor := EffectiveAfterId(q, req, log);
    ResponseContinues(q, req, turn.rpc.view, log);
    AfterBounded(log, q, cursor);
    BatchCounts(c, data);
    var left, left' := |After(log, q, cursor)|, |After(log, q, data.lastId)|;
    assert left' == left - |data.entries|;
    assert c.lastId.Some? ==> cursor == c.lastId.value;
  }

  lemma BatchCounts(c: Client, data: LogStreamData)
    ensures var c' := Print(c, data);
            c'.remaining == Some(0) || |c'.printed| == |c.printed| + |data.entries|
  {
  }

  /** Once the log is quiet, every answer counts, wherever the run stands by then. */
  lemma {:induction false} QuietRunShrinks(params: StreamParams, q: Query, log: Log, before: seq<Turn>, turns: seq<Turn>)
    requires params.mode == All && params.limit > 0 && Stored(log) && Quiet(turns, log)
    requires Run(params, q, before).exit.None?
    ensures var c := Run(params, q, before + turns);
            || c.exit == Some(Done)
            || (c.exit.None? && Measure(q, log, c) + Answers(turns) <= Measure(q, log, Run(params, q, before)))
  {
    if turns == [] {
      assert before + turns == before;
    } else {
      var init, turn := turns[..|turns| - 1], turns[|turns| - 1];
      assert before + turns == (before + init) + [turn];
      QuietRunShrinks(params, q, log, before, init);
      RunAppend(params, q, before + init, turn);
      var c := Run(params, q, before + init);
      if c.exit.None? && turn.rpc.Answered? {
        FlushWaitsBounded(params, q, before + init);
        QuietTurnProgresses(params, q, log, c, turn);
      }
    }
  }

  /**
   One-shot reading ends: whatever happened `before`, once the log has stopped growing
   81 answers for each stored entry, and 81 more, are enough.
   */
  lemma OneShotEnds(params: StreamParams, q: Query, log: Log, before: seq<Turn>, turns: seq<Turn>)
    requires params.mode == All && params.limit > 0 && Stored(log)
    requires Run(params, q, before).exit.None? && Quiet(turns, log)
    requires Answers(turns) >= (|log| + 1) * (MAX_FLUSH_WAITS + 1)
    ensures Run(params, q, before + turns).exit == Some(Done)
  {
    QuietRunShrinks(params, q, log, before, turns);
    FlushWaitsBounded(params, q, before);
    MeasureBounded(q, log, Run(params, q, before));
    FlushWaitsBounded(params, q, before + turns);
    MeasureBounded(q, log, Run(params, q, before + turns));
  }

  lemma QuietViews(before: seq<Turn>, turns: seq<Turn>, log: Log)
    requires ViewsOf(before, log) && Quiet(turns, log)
    ensures ViewsOf(before + turns, log)
  {
    var all := before + turns;
    forall i | 0 <= i < |all| && all[i].rpc.Answered?
      ensures all[i].rpc.view.first <= log && all[i].rpc.view.second <= log
    {
      if i >= |before| {
        assert QuietTurn(turns[i - |before|], log);
      }
    }
  }

  /** What is printed once all that is due, or the total, has been reached. */
  ghost predicate Complete(params: StreamParams, due: Log, printed: Log) {
    match params.maxTotal
    case None => printed == due
    case Some(n) => printed == Take(due, n)
  }

  /** A run that ends on an answer from the final log is complete. */
  lemma FinalAnswerCompletes(params: StreamParams, q: Query, log: Log, turns: seq<Turn>, turn: Turn)
    requires params.limit > 0 && Stored(log) && ViewsOf(turns + [turn], log) && QuietTurn(turn, log)
    requires Run(params, q, turns).exit.None? && Run(params, q, turns + [turn]).exit == Some(Done)
    ensures FirstAnswer(turns + [turn]).Some?
    ensures Complete(params, After(log, q, Anchor(params, q, turns + [turn])), Run(params, q, turns + [turn]).printed)
  {
    FirstAnswerAppend(turns, turn);
    EveryRunOnCourse(params, q, log, turns + [turn]);
    if Run(params, q, turns + [turn]).remaining != Some(0) {
      DrainedPrintedAll(params, q, log, turns, turn);
    }
  }

  lemma QuietEnding(params: StreamParams, q: Query, log: Log, c: Client, turn: Turn)
    requires params.mode == All && params.limit > 0 && Stored(log)
    requires turn.rpc.TimedOut? || QuietTurn(turn, log)
    requires c.exit.None? && c.flushWaits <= MAX_FLUSH_WAITS && Step(params, q, c, turn).exit.Some?
    ensures QuietTurn(turn, log) && Step(params, q, c, turn).exit == Some(Done)
  {
    if QuietTurn(turn, log) {
      QuietTurnProgresses(params, q, log, c, turn);
    }
  }

  /** When it has ended on the quiet log, it has printed all that was due, or as much of it as the total allows. */
  lemma {:induction false} OneShotIsComplete(params: StreamParams, q: Query, log: Log, before: seq<Turn>, turns: seq<Turn>)
    requires params.mode == All && params.limit > 0 && Stored(log) && ViewsOf(before, log)
    requires Run(params, q, before).exit.None? && Quiet(turns, log)
    requires Run(params, q, before + turns).exit.Some?
    ensures FirstAnswer(before + turns).Some?
    ensures Complete(params, After(log, q, Anchor(params, q, before + turns)), Run(params, q, before + turns).printed)
  {
    assert before + [] == before;
    if turns != [] {
      var init, turn := turns[..|turns| - 1], turns[|turns| - 1];
      assert before + turns == (before + init) + [turn];
      RunAppend(params, q, before + init, turn);
      if Run(params, q, before + init).exit.Some? {
        OneShotIsComplete(params, q, log, before, init);
        FirstAnswerAppend(before + init, turn);
      } else {
        QuietViews(before, turns, log);
        FlushWaitsBounded(params, q, before + init);
        QuietEnding(params, q, log, Run(params, q, before + init), turn);
        FinalAnswerCompletes(params, q, log, before + init, turn);
      }
    }
  }

  // ----- limits and backlog

  /** With a batch limit of zero nothing is ever printed, and one-shot mode still ends as if it had been. */
  lemma {:induction false} ZeroLimitPrintsNothing(params: StreamParams, q: Query, turns: seq<Turn>)
    requires params.limit == 0
    ensures Run(params, q, turns).printed == []
  {
    if turns != [] {
      var init, turn := turns[..|turns| - 1], turns[|turns| - 1];
      ZeroLimitPrintsNothing(params, q, init);
      var c := Run(params, q, init);
      if c.exit.None? && turn.rpc.Answered? {
        assert HandleLogsStream(q, NextRequest(params, c), turn.rpc.view).entries == [];
      }
    }
  }

  /** So a one-shot run that ends on a quiet log is complete exactly when the limit is positive or nothing is due. */
  lemma CompleteIffLimitPositive(params: StreamParams, q: Query, log: Log, before: seq<Turn>, turns: seq<Turn>)
    requires params.mode == All && params.maxTotal.None? && Stored(log) && ViewsOf(before, log)
    requires Run(params, q, before).exit.None? && Quiet(turns, log)
    requires Run(params, q, before + turns).exit.Some?
    ensures var due := After(log, q, Anchor(params, q, before + turns));
            Run(params, q, before + turns).printed == due <==> params.limit > 0 || due == []
  {
    if params.limit > 0 {
      OneShotIsComplete(params, q, log, before, turns);
    } else {
      ZeroLimitPrintsNothing(params, q, before + turns);
    }
  }

  /** A run that ended on its freshest answer has printed what that answer's read saw, no more and no less. */
  lemma DrainedIsExact(params: StreamParams, q: Query, turns: seq<Turn>, turn: Turn)
    requires params.limit > 0 && Drained(params, q, turns, turn)
    requires Stored(turn.rpc.view.second) && ViewsOf(turns + [turn], turn.rpc.view.second)
    ensures Run(params, q, turns + [turn]).printed == After(turn.rpc.view.second, q, Anchor(params, q, turns + [turn]))
  {
    DrainedPrintedAll(params, q, turn.rpc.view.second, turns, turn);
    NoGapNoRepeat(params, q, turn.rpc.view.second, turns + [turn]);
  }

  /**
   Of the entries due in the whole log, a run that ended this way lost exactly those the
   writer had not stored when the last answer was read.
   */
  lemma LostIffUnseen(params: StreamParams, q: Query, log: Log, turns: seq<Turn>, turn: Turn)
    requires params.limit > 0 && Drained(params, q, turns, turn) && Stored(log)
    requires turn.rpc.view.second <= log && ViewsOf(turns + [turn], turn.rpc.view.second)
    ensures var printed, due := Run(params, q, turns + [turn]).printed, After(log, q, Anchor(params, q, turns + [turn]));
            && (forall e :: e in due ==> (e in printed <==> e in turn.rpc.view.second))
            && (printed == due <==> forall e :: e in due ==> e in turn.rpc.view.second)
  {
    var anchor, view := Anchor(params, q, turns + [turn]), turn.rpc.view.second;
    PrefixStored(view, log);
    DrainedIsExact(params, q, turns, turn);
    AfterSound(log, q, anchor);
    AfterSound(view, q, anchor);
    AfterOfPrefix(view, log, q, anchor);
    PrefixWithAll(After(view, q, anchor), After(log, q, anchor));
  }

  lemma PrefixWithAll(some: Log, all: Log)
    requires some <= all && Stored(all)
    ensures some == all <==> forall e :: e in all ==> e in some
  {
    if |some| < |all| {
      assert all[|some|] !in some;
    }
  }

  /**
   A stream that follows services does not wait for the writer: once they are all finished,
   the first answer that can read nothing ends it. An entry written after that answer is lost.
   */
  lemma FollowDropsBacklog(params: StreamParams, q: Query, e: LogEntry)
    requires params.mode == UntilQuiescent && params.maxTotal.None?
    requires q(e) && e.id > 0 && (params.startAfterId.Some? ==> params.startAfterId.value < e.id)
    ensures var turns := [Turn(NotLoaded, Quiescence), Turn(Answered(View([], [], true)), Elapsed)];
            && Stored([e]) && ViewsOf(turns, [e])
            && Run(params, q, turns).exit == Some(Done)
            && e in After([e], q, Anchor(params, q, turns)) && e !in Run(params, q, turns).printed
  {
    var first, second := Turn(NotLoaded, Quiescence), Turn(Answered(View([], [], true)), Elapsed);
    QuiescentReadsNothing(params, q);
    assert [first, second][1..] == [second];
    assert FirstAnswer([first, second]) == FirstAnswer([second]) == Some(second.rpc.view);
    AfterMembers([e], q, Anchor(params, q, [first, second]), e);
  }

  lemma QuiescentReadsNothing(params: StreamParams, q: Query)
    requires params.mode == UntilQuiescent && params.maxTotal.None?
    ensures var turns := [Turn(NotLoaded, Quiescence), Turn(Answered(View([], [], true)), Elapsed)];
            Run(params, q, turns).exit == Some(Done) && Run(params, q, turns).printed == []
  {
    var first, second := Turn(NotLoaded, Quiescence), Turn(Answered(View([], [], true)), Elapsed);
    RunAppend(params, q, [], first);
    RunAppend(params, q, [first], second);
    assert [] + [first] == [first] && [first] + [second] == [first, second];
    assert Run(params, q, [first]) == Start(params).(quiescent := true);
  }

  // ----- one-shot mode waits for the writer

  /** The answer of turn `i` had nothing to print, though the writer held entries back. */
  ghost predicate WaitedAt(params: StreamParams, q: Query, turns: seq<Turn>, i: nat) {
    && i < |turns| && turns[i].rpc.Answered? && turns[i].rpc.view.hasPending
    && Run(params, q, turns[..i + 1]).printed == Run(params, q, turns[..i]).printed
  }

  ghost predicate PrintedAt(params: StreamParams, q: Query, turns: seq<Turn>, i: nat) {
    i < |turns| && |Run(params, q, turns[..i + 1]).printed| > |Run(params, q, turns[..i]).printed|
  }

  /** Since turn `from`, the start or just behind the last progress, every answer was such a wait. */
  ghost predicate StalledSince(params: StreamParams, q: Query, turns: seq<Turn>, from: nat) {
    && from <= |turns|
    && (from == 0 || PrintedAt(params, q, turns, from - 1))
    && forall i: nat :: from <= i < |turns| ==> turns[i].rpc.TimedOut? || WaitedAt(params, q, turns, i)
  }

  lemma SameBefore(params: StreamParams, q: Query, turns: seq<Turn>, turn: Turn, i: nat)
    requires i < |turns|
    ensures WaitedAt(params, q, turns + [turn], i) == WaitedAt(params, q, turns, i)
    ensures PrintedAt(params, q, turns + [turn], i) == PrintedAt(params, q, turns, i)
  {
    var all := turns + [turn];
    assert all[..i + 1] == turns[..i + 1] && all[..i] == turns[..i];
  }

  lemma StallExtends(params: StreamParams, q: Query, turns: seq<Turn>, turn: Turn, from: nat)
    requires StalledSince(params, q, turns, from)
    requires turn.rpc.TimedOut? || WaitedAt(params, q, turns + [turn], |turns|)
    ensures StalledSince(params, q, turns + [turn], from)
    ensures Answers((turns + [turn])[from..]) == Answers(turns[from..]) + if turn.rpc.Answered? then 1 else 0
  {
    var all := turns + [turn];
    forall i: nat | from <= i < |all| ensures all[i].rpc.TimedOut? || WaitedAt(params, q, all, i) {
      if i < |turns| {
        SameBefore(params, q, turns, turn, i);
      }
    }
    if from > 0 {
      SameBefore(params, q, turns, turn, from - 1);
    }
    assert all[from..] == turns[from..] + [turn];
  }

  /** The stall after one more turn: longer by a wait, unchanged by a timeout, over with progress. */
  lemma StallStep(params: StreamParams, q: Query, turns: seq<Turn>, turn: Turn, before: nat) returns (from: nat)
    requires params.mode == All && params.limit > 0
    requires Run(params, q, turns).exit.None? && Run(params, q, turns + [turn]).exit.None?
    requires StalledSince(params, q, turns, before) && Answers(turns[before..]) == Run(params, q, turns).flushWaits
    ensures StalledSince(params, q, turns + [turn], from)
    ensures Answers((turns + [turn])[from..]) == Run(params, q, turns + [turn]).flushWaits
  {
    var all, c := turns + [turn], Run(params, q, turns);
    RunAppend(params, q, turns, turn);
    assert all[..|turns|] == turns && all[..|turns| + 1] == all;
    if turn.rpc.Answered? {
      OneShotAnswer(params, q, c, turn);
      if |Run(params, q, all).printed| > |c.printed| {
        from := |all|;
        assert PrintedAt(params, q, all, |turns|);
      } else {
        from := before;
        StallExtends(params, q, turns, turn, from);
      }
    } else {
      from := before;
      RunningTimedOut(params, q, c, turn);
      StallExtends(params, q, turns, turn, from);
    }
  }

  lemma RunningTimedOut(params: StreamParams, q: Query, c: Client, turn: Turn)
    requires params.mode == All && Step(params, q, c, turn).exit.None? && !turn.rpc.Answered?
    ensures turn.rpc.TimedOut? && Step(params, q, c, turn) == c
  {
  }

  /** A one-shot answer either makes progress, or is a wait, or ends the run. */
  lemma OneShotAnswer(params: StreamParams, q: Query, c: Client, turn: Turn)
    requires params.mode == All && params.limit > 0 && c.exit.None? && turn.rpc.Answered?
    ensures var c' := Step(params, q, c, turn);
            && (c'.exit.None? && |c'.printed| > |c.printed| ==> c'.flushWaits == 0)
            && (c'.exit.None? && |c'.printed| <= |c.printed| ==>
                  c'.flushWaits == c.flushWaits + 1 && turn.rpc.view.hasPending && c'.printed == c.printed)
            && (c'.exit == Some(Done) && c'.remaining != Some(0) && turn.rpc.view.hasPending ==>
                  c.flushWaits >= MAX_FLUSH_WAITS && c'.printed == c.printed)
  {
    var req := NextRequest(params, c);
    var data := HandleLogsStream(q, req, turn.rpc.view);
    if data.entries != [] || c.remaining == Some(0) {
    } else {
      assert req.limit > 0;
    }
  }

  /** While it runs, the flush waits are the answers since the last progress, every one of them a wait. */
  lemma {:induction false} StallCounted(params: StreamParams, q: Query, turns: seq<Turn>) returns (from: nat)
    requires params.mode == All && params.limit > 0 && Run(params, q, turns).exit.None?
    ensures StalledSince(params, q, turns, from) && Answers(turns[from..]) == Run(params, q, turns).flushWaits
  {
    if turns == [] {
      from := 0;
    } else {
      var init, turn := turns[..|turns| - 1], turns[|turns| - 1];
      assert turns == init + [turn];
      RunAppend(params, q, init, turn);
      from := StallCounted(params, q, init);
      from := StallStep(params, q, init, turn, from);
    }
  }

  /**
   One-shot mode gives up on entries the writer still holds only when the last 80 answers,
   all since anything was printed, had found nothing stored either.
   */
  lemma OneShotWaitsForFlush(params: StreamParams, q: Query, turns: seq<Turn>, turn: Turn) returns (from: nat)
    requires params.mode == All && params.limit > 0 && Drained(params, q, turns, turn) && turn.rpc.view.hasPending
    ensures StalledSince(params, q, turns, from) && Answers(turns[from..]) == MAX_FLUSH_WAITS
    ensures Run(params, q, turns + [turn]).printed == Run(params, q, turns).printed
  {
    from := StallCounted(params, q, turns);
    FlushWaitsBounded(params, q, turns);
    RunAppend(params, q, turns, turn);
    OneShotAnswer(params, q, Run(params, q, turns), turn);
  }
}
