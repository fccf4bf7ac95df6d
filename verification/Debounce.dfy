/**
 The file watcher's debounce loop. A run is the list of its passes: what each receive
 returned and what the clock showed at the points where the loop reads it.
 */
module Debounce {
  import opened Wrappers

  const TIMEOUT: int := 500

  datatype Received =
    | Changed(paths: seq<string>)   // an event that creates, modifies or removes
    | Ignored                       // any other event
    | Failed                        // an error from the watcher
    | TimedOut(closed: bool)        // nothing came; `closed` if the async side is gone
    | Disconnected

  /** One pass: what was received, the three clock readings, and whether a send would fail. */
  datatype Pass = Pass(received: Received, now: int, check: int, emit: int, sendFails: bool)

  /** A batch handed on: each path with the time it was first seen. */
  datatype Batch = Batch(at: int, paths: map<string, int>)

  datatype Watcher = Watcher(eventMap: map<string, int>, deadline: Option<int>, emitted: seq<Batch>, stopped: bool)

  const Start := Watcher(map[], None, [], false)

  // ----- the loop as a function

  function Insert(m: map<string, int>, paths: seq<string>, now: int): map<string, int> {
    m + map p | p in paths && p !in m :: now
  }

  function Expired(m: map<string, int>, now: int): map<string, int> {
    map p | p in m && now - m[p] >= TIMEOUT :: m[p]
  }

  function Waiting(m: map<string, int>, now: int): map<string, int> {
    map p | p in m && now - m[p] < TIMEOUT :: m[p]
  }

  /** The time at which the first of the waiting paths expires. */
  ghost predicate IsNextDeadline(m: map<string, int>, d: Option<int>) {
    if m.Keys == {} then d.None?
    else d.Some? && (forall p :: p in m ==> d.value <= m[p] + TIMEOUT) && exists p :: p in m && d.value == m[p] + TIMEOUT
  }

  lemma NextDeadlineExists(m: map<string, int>)
    ensures exists d :: IsNextDeadline(m, d)
  {
    var d := NextDeadline(m);
  }

  ghost function DeadlineOf(m: map<string, int>): Option<int>
    ensures IsNextDeadline(m, DeadlineOf(m))
  {
    NextDeadlineExists(m);
    var d :| IsNextDeadline(m, d); d
  }

  lemma {:induction false} NextDeadline(m: map<string, int>) returns (d: Option<int>)
    ensures IsNextDeadline(m, d)
    decreases |m|
  {
    if m.Keys == {} {
      d := None;
    } else {
      var p :| p in m;
      var rest := map q | q in m && q != p :: m[q];
      assert rest.Keys == m.Keys - {p};
      var e := NextDeadline(rest);
      assert forall q :: q in m ==> q == p || q in rest;
      d := if e.Some? && e.value <= m[p] + TIMEOUT then e else Some(m[p] + TIMEOUT);
      assert forall q :: q in m ==> d.value <= m[q] + TIMEOUT;
    }
  }

  ghost function EmitBlock(w: Watcher, pass: Pass): Watcher {
    if w.deadline.None? || pass.check < w.deadline.value then w
    else
      var ready, remaining := Expired(w.eventMap, pass.emit), Waiting(w.eventMap, pass.emit);
      var w' := w.(eventMap := remaining, deadline := DeadlineOf(remaining));
      if ready.Keys == {} then w'
      else if pass.sendFails then w'.(stopped := true)
      else w'.(emitted := w.emitted + [Batch(pass.emit, ready)])
  }

  /** The watcher after the insertion part of a pass with a change. */
  ghost function WithChange(w: Watcher, paths: seq<string>, now: int): Watcher {
    w.(eventMap := Insert(w.eventMap, paths, now), deadline := if w.deadline.None? then Some(now + TIMEOUT) else w.deadline)
  }

  ghost function Step(w: Watcher, pass: Pass): Watcher {
    match pass.received
    case Changed(paths) =>
      EmitBlock(WithChange(w, paths, pass.now), pass)
    case Ignored => w
    case Failed => EmitBlock(w, pass)
    case TimedOut(closed) => if closed then w.(stopped := true) else EmitBlock(w, pass)
    case Disconnected => w.(stopped := true)
  }

  ghost function Run(passes: seq<Pass>): Watcher {
    if passes == [] then Start
    else
      var w := Run(passes[..|passes| - 1]);
      if w.stopped then w else Step(w, passes[|passes| - 1])
  }

  // ----- the loop itself

  method InsertPaths(m0: map<string, int>, paths: seq<string>, now: int) returns (m: map<string, int>)
    ensures m == Insert(m0, paths, now)
  {
    m := m0;
    for i := 0 to |paths|
      invariant m == Insert(m0, paths[..i], now)
    {
      InsertOneMore(m0, paths[..i], paths[i], now);
      assert paths[..i + 1] == paths[..i] + [paths[i]];
      if paths[i] !in m {
        m := m[paths[i] := now];
      }
    }
    assert paths[..|paths|] == paths;
  }

  lemma InsertOneMore(m: map<string, int>, paths: seq<string>, p: string, now: int)
    ensures Insert(m, paths + [p], now) ==
              if p in Insert(m, paths, now) then Insert(m, paths, now) else Insert(m, paths, now)[p := now]
  {
    var before, after := Insert(m, paths, now), Insert(m, paths + [p], now);
    assert after.Keys == before.Keys + {p};
  }

  /** Draining the map into the paths to send and the paths to keep. */
  method Drain(m: map<string, int>, now: int) returns (ready: map<string, int>, remaining: map<string, int>)
    ensures ready == Expired(m, now) && remaining == Waiting(m, now)
  {
    ready, remaining := map[], map[];
    var todo := m.Keys;
    while todo != {}
      invariant todo <= m.Keys
      invariant ready == map p | p in m && p !in todo && now - m[p] >= TIMEOUT :: m[p]
      invariant remaining == map p | p in m && p !in todo && now - m[p] < TIMEOUT :: m[p]
      decreases |todo|
    {
      var p :| p in todo;
      if now - m[p] >= TIMEOUT {
        ready := ready[p := m[p]];
      } else {
        remaining := remaining[p := m[p]];
      }
      todo := todo - {p};
    }
  }

  method Earliest(m: map<string, int>) returns (d: Option<int>)
    ensures IsNextDeadline(m, d)
  {
    d := None;
    var todo := m.Keys;
    while todo != {}
      invariant todo <= m.Keys
      invariant d.None? <==> todo == m.Keys
      invariant d.Some? ==> forall p :: p in m.Keys - todo ==> d.value <= m[p] + TIMEOUT
      invariant d.Some? ==> exists p :: p in m && d.value == m[p] + TIMEOUT
      decreases |todo|
    {
      var p :| p in todo;
      if d.None? || m[p] + TIMEOUT < d.value {
        d := Some(m[p] + TIMEOUT);
      }
      todo := todo - {p};
    }
  }

  method EmitReady(w: Watcher, pass: Pass) returns (w': Watcher)
    ensures w' == EmitBlock(w, pass)
  {
    w' := w;
    if w.deadline.Some? && pass.check >= w.deadline.value {
      var ready, remaining := Drain(w.eventMap, pass.emit);
      var deadline := Earliest(remaining);
      w' := w.(eventMap := remaining, deadline := deadline);
      if ready.Keys != {} {
        if pass.sendFails {
          w' := w'.(stopped := true);
        } else {
          w' := w'.(emitted := w.emitted + [Batch(pass.emit, ready)]);
        }
      }
    }
  }

  /** The debounce loop of `FileWatcherActor::run`. */
  method DebounceLoop(passes: seq<Pass>) returns (w: Watcher)
    ensures w == Run(passes)
  {
    w := Start;
    var i := 0;
    while i < |passes| && !w.stopped
      invariant 0 <= i <= |passes| && w == Run(passes[..i])
      decreases |passes| - i
    {
      var pass := passes[i];
      RunOneMore(passes, i);
      i := i + 1;
      match pass.received {
        case Changed(paths) =>
          var m := InsertPaths(w.eventMap, paths, pass.now);
          w := w.(eventMap := m);
          if w.deadline.None? {
            w := w.(deadline := Some(pass.now + TIMEOUT));
          }
        case Ignored =>
          continue;
        case Failed =>
        case TimedOut(closed) =>
          if closed {
            w := w.(stopped := true);
            continue;
          }
        case Disconnected =>
          w := w.(stopped := true);
          continue;
      }
      w := EmitReady(w, pass);
    }
    RunStops(passes, i);
  }

  lemma RunOneMore(passes: seq<Pass>, i: nat)
    requires i < |passes| && !Run(passes[..i]).stopped
    ensures Run(passes[..i + 1]) == Step(Run(passes[..i]), passes[i])
  {
    assert passes[..i + 1][..i] == passes[..i];
  }

  lemma {:induction false} RunStops(passes: seq<Pass>, i: nat)
    requires i <= |passes| && (i == |passes| || Run(passes[..i]).stopped)
    ensures Run(passes) == Run(passes[..i])
  {
    if i == |passes| {
      assert passes[..i] == passes;
    } else {
      assert passes[..|passes| - 1][..i] == passes[..i];
      RunStops(passes[..|passes| - 1], i);
    }
  }

  // ----- every run

  /** The clock does not go back. */
  ghost predicate Monotone(passes: seq<Pass>) {
    && (forall i :: 0 <= i < |passes| ==> passes[i].now <= passes[i].check <= passes[i].emit)
    && (forall i, j :: 0 <= i < j < |passes| ==> passes[i].emit <= passes[j].now)
  }

  /** Nothing was seen or sent after `time`. */
  ghost predicate Before(w: Watcher, time: int) {
    && (forall p :: p in w.eventMap ==> w.eventMap[p] <= time)
    && (forall i :: 0 <= i < |w.emitted| ==> w.emitted[i].at <= time)
    && (w.deadline.Some? ==> w.deadline.value <= time + TIMEOUT)
  }

  /** The deadline is set while paths wait, and is never later than the expiry of any of them. */
  ghost predicate DeadlineRight(w: Watcher) {
    w.eventMap.Keys != {} ==> w.deadline.Some? && forall p :: p in w.eventMap ==> w.deadline.value <= w.eventMap[p] + TIMEOUT
  }

  /** Every path of the batch had waited its time. */
  ghost predicate WaitedOut(b: Batch) {
    forall p :: p in b.paths ==> b.at - b.paths[p] >= TIMEOUT
  }

  /** The windows in `later` began after this batch was sent. */
  ghost predicate Precedes(b: Batch, later: map<string, int>) {
    forall p :: p in b.paths && p in later ==> b.at <= later[p]
  }

  /** Every path sent had waited its time, and the windows of one path follow each other. */
  ghost predicate BatchesRight(w: Watcher) {
    && (forall i :: 0 <= i < |w.emitted| ==> WaitedOut(w.emitted[i]))
    && (forall i, j :: 0 <= i < j < |w.emitted| ==> Precedes(w.emitted[i], w.emitted[j].paths))
    && (forall i :: 0 <= i < |w.emitted| ==> Precedes(w.emitted[i], w.eventMap))
  }

  lemma EmitKeepsBatches(w: Watcher, pass: Pass)
    requires BatchesRight(w)
    ensures BatchesRight(EmitBlock(w, pass))
  {
    var w' := EmitBlock(w, pass);
    var ready, remaining := Expired(w.eventMap, pass.emit), Waiting(w.eventMap, pass.emit);
    forall i | 0 <= i < |w.emitted| ensures Precedes(w.emitted[i], ready) && Precedes(w.emitted[i], remaining) {
      assert Precedes(w.emitted[i], w.eventMap);
    }
    var b := Batch(pass.emit, ready);
    assert WaitedOut(b) && Precedes(b, remaining);
    if w'.emitted != w.emitted {
      assert w'.emitted == w.emitted + [b] && w'.eventMap == remaining;
      forall i, j | 0 <= i < j < |w'.emitted| ensures Precedes(w'.emitted[i], w'.emitted[j].paths) {
        if j < |w.emitted| {
          assert Precedes(w.emitted[i], w.emitted[j].paths);
        }
      }
    }
  }

  lemma EmitKeeps(w: Watcher, pass: Pass, time: int)
    requires Sound(w, time) && time <= pass.check <= pass.emit
    ensures Sound(EmitBlock(w, pass), pass.emit)
  {
    EmitKeepsBatches(w, pass);
  }

  ghost predicate Sound(w: Watcher, time: int) {
    Before(w, time) && DeadlineRight(w) && BatchesRight(w)
  }

  lemma StepKeeps(w: Watcher, pass: Pass, time: int)
    requires Sound(w, time) && time <= pass.now <= pass.check <= pass.emit
    ensures Sound(Step(w, pass), pass.emit)
  {
    if pass.received.Changed? {
      EmitKeeps(WithChange(w, pass.received.paths, pass.now), pass, pass.now);
    } else {
      EmitKeeps(w, pass, pass.now);
    }
  }

  /** On every run no path is sent early, the windows of a path do not overlap, and no expiry is missed by the deadline. */
  lemma {:induction false} EveryRunSound(passes: seq<Pass>, time: int)
    requires Monotone(passes) && (passes != [] ==> passes[|passes| - 1].emit <= time)
    ensures Sound(Run(passes), time)
  {
    if passes != [] {
      var init, pass := passes[..|passes| - 1], passes[|passes| - 1];
      EveryRunSound(init, pass.now);
      if !Run(init).stopped {
        StepKeeps(Run(init), pass, pass.now);
      }
    }
  }

  // ----- nothing is lost or made up

  /** `p` changed at `time`, as pass `i` saw it. */
  ghost predicate SeenAt(passes: seq<Pass>, i: nat, p: string, time: int) {
    i < |passes| && passes[i].received.Changed? && p in passes[i].received.paths && passes[i].now == time
  }

  ghost predicate WasSeen(passes: seq<Pass>, p: string, time: int) {
    exists i: nat :: SeenAt(passes, i, p, time)
  }

  /** The change falls into the window of a path still waiting, or of a batch that was sent. */
  ghost predicate Accounted(w: Watcher, p: string, time: int) {
    (p in w.eventMap && w.eventMap[p] <= time) || exists j: nat :: InBatch(w, j, p, time)
  }

  ghost predicate InBatch(w: Watcher, j: nat, p: string, time: int) {
    j < |w.emitted| && p in w.emitted[j].paths && w.emitted[j].paths[p] <= time <= w.emitted[j].at
  }

  lemma EmitAccounts(w: Watcher, pass: Pass, p: string, time: int)
    requires Accounted(w, p, time) && !EmitBlock(w, pass).stopped && time <= pass.emit
    ensures Accounted(EmitBlock(w, pass), p, time)
  {
    var w' := EmitBlock(w, pass);
    if p in w.eventMap && w.eventMap[p] <= time {
      if p !in w'.eventMap {
        assert p in Expired(w.eventMap, pass.emit);
        assert InBatch(w', |w.emitted|, p, time);
      }
    } else {
      var j: nat :| InBatch(w, j, p, time);
      assert InBatch(w', j, p, time);
    }
  }

  lemma ChangeAccounts(w: Watcher, paths: seq<string>, now: int, p: string, time: int)
    requires Accounted(w, p, time) || (p in paths && time == now && forall q :: q in w.eventMap ==> w.eventMap[q] <= now)
    ensures Accounted(WithChange(w, paths, now), p, time)
  {
    var w' := WithChange(w, paths, now);
    if !(p in w'.eventMap && w'.eventMap[p] <= time) {
      var j: nat :| InBatch(w, j, p, time);
      assert InBatch(w', j, p, time);
    }
  }

  /** Every change received by a running loop is accounted for by exactly such a window. */
  lemma {:induction false} EveryChangeAccounted(passes: seq<Pass>, p: string, time: int)
    requires Monotone(passes) && !Run(passes).stopped && WasSeen(passes, p, time)
    ensures Accounted(Run(passes), p, time)
  {
    var i: nat :| SeenAt(passes, i, p, time);
    var init, pass := passes[..|passes| - 1], passes[|passes| - 1];
    var w := Run(init);
    EveryRunSound(init, pass.now);
    if i < |init| {
      assert SeenAt(init, i, p, time);
      EveryChangeAccounted(init, p, time);
    }
    if pass.received.Changed? {
      ChangeAccounts(w, pass.received.paths, pass.now, p, time);
      EmitAccounts(WithChange(w, pass.received.paths, pass.now), pass, p, time);
    } else if !pass.received.Ignored? {
      EmitAccounts(w, pass, p, time);
    }
  }

  ghost predicate AllSeen(passes: seq<Pass>, windows: map<string, int>) {
    forall p :: p in windows ==> WasSeen(passes, p, windows[p])
  }

  lemma StillSeen(passes: seq<Pass>, pass: Pass, windows: map<string, int>)
    requires AllSeen(passes, windows)
    ensures AllSeen(passes + [pass], windows)
  {
    forall p | p in windows ensures WasSeen(passes + [pass], p, windows[p]) {
      var i: nat :| SeenAt(passes, i, p, windows[p]);
      assert SeenAt(passes + [pass], i, p, windows[p]);
    }
  }

  lemma InsertedSeen(passes: seq<Pass>, pass: Pass, windows: map<string, int>)
    requires AllSeen(passes, windows) && pass.received.Changed?
    ensures AllSeen(passes + [pass], Insert(windows, pass.received.paths, pass.now))
  {
    StillSeen(passes, pass, windows);
    forall p | p in pass.received.paths ensures WasSeen(passes + [pass], p, pass.now) {
      assert SeenAt(passes + [pass], |passes|, p, pass.now);
    }
  }

  ghost predicate WindowsSeen(passes: seq<Pass>, w: Watcher) {
    AllSeen(passes, w.eventMap) && forall j :: 0 <= j < |w.emitted| ==> AllSeen(passes, w.emitted[j].paths)
  }

  lemma EmitSeen(passes: seq<Pass>, w: Watcher, pass: Pass)
    requires WindowsSeen(passes, w)
    ensures WindowsSeen(passes, EmitBlock(w, pass))
  {
    assert AllSeen(passes, Expired(w.eventMap, pass.emit)) && AllSeen(passes, Waiting(w.eventMap, pass.emit));
  }

  /** Conversely every window, open or sent, begins with a change that was received. */
  lemma {:induction false} EveryWindowSeen(passes: seq<Pass>)
    ensures WindowsSeen(passes, Run(passes))
  {
    if passes != [] {
      var init, pass := passes[..|passes| - 1], passes[|passes| - 1];
      EveryWindowSeen(init);
      assert init + [pass] == passes;
      var w := Run(init);
      StillSeen(init, pass, w.eventMap);
      forall j | 0 <= j < |w.emitted| ensures AllSeen(passes, w.emitted[j].paths) {
        StillSeen(init, pass, w.emitted[j].paths);
      }
      if pass.received.Changed? {
        InsertedSeen(init, pass, w.eventMap);
        EmitSeen(passes, WithChange(w, pass.received.paths, pass.now), pass);
      } else {
        EmitSeen(passes, w, pass);
      }
    }
  }

  // ----- when a path is sent

  predicate ReachesEmit(received: Received) {
    received.Changed? || received.Failed? || (received.TimedOut? && !received.closed)
  }

  /** From `w` to `w'` one batch was sent, with `p` in it, and `p` no longer waits. */
  ghost predicate Sent(w: Watcher, w': Watcher, p: string) {
    && p in w.eventMap && p !in w'.eventMap
    && |w'.emitted| == |w.emitted| + 1 && w.emitted <= w'.emitted
    && p in w'.emitted[|w.emitted|].paths && w'.emitted[|w.emitted|].paths[p] == w.eventMap[p]
  }

  /** A pass after a path's time is up sends it exactly when it gets to the emit block and the send does not fail. */
  lemma SentWhenDue(passes: seq<Pass>, pass: Pass, p: string)
    requires Monotone(passes + [pass]) && !Run(passes).stopped && p in Run(passes).eventMap
    requires pass.check >= Run(passes).eventMap[p] + TIMEOUT
    ensures Sent(Run(passes), Run(passes + [pass]), p) <==> ReachesEmit(pass.received) && !pass.sendFails
  {
    var all, w := passes + [pass], Run(passes);
    assert all[..|passes|] == passes && all[|passes|] == pass;
    assert forall i :: 0 <= i < |passes| ==> all[i] == passes[i];
    EveryRunSound(passes, pass.now);
    if ReachesEmit(pass.received) && !pass.sendFails {
      if pass.received.Changed? {
        EmitSends(WithChange(w, pass.received.paths, pass.now), pass, p);
      } else {
        EmitSends(w, pass, p);
      }
    }
  }

  lemma EmitSends(w: Watcher, pass: Pass, p: string)
    requires DeadlineRight(w) && p in w.eventMap && !pass.sendFails
    requires w.eventMap[p] + TIMEOUT <= pass.check <= pass.emit
    ensures var w' := EmitBlock(w, pass);
            && w'.emitted == w.emitted + [Batch(pass.emit, Expired(w.eventMap, pass.emit))]
            && p in Expired(w.eventMap, pass.emit) && p !in w'.eventMap
  {
    assert p in Expired(w.eventMap, pass.emit);
  }

  predicate Ends(received: Received) {
    received.Disconnected? || (received.TimedOut? && received.closed)
  }

  /**
   The loop goes on, except when its channel is closed and when a batch cannot be sent:
   never without an expired path, and always with one that was due at the deadline check.
   */
  lemma GoesOn(passes: seq<Pass>, pass: Pass)
    requires Monotone(passes + [pass]) && !Run(passes).stopped
    ensures Ends(pass.received) ==> Run(passes + [pass]).stopped
    ensures Run(passes + [pass]).stopped && !Ends(pass.received) ==>
              && ReachesEmit(pass.received) && pass.sendFails
              && exists p :: WaitsFor(Run(passes), pass, p) && SeenFor(Run(passes), pass, p) + TIMEOUT <= pass.emit
    ensures ReachesEmit(pass.received) && pass.sendFails ==>
              forall p :: p in Run(passes).eventMap && Run(passes).eventMap[p] + TIMEOUT <= pass.check ==>
                Run(passes + [pass]).stopped
  {
    var all, w := passes + [pass], Run(passes);
    assert all[..|passes|] == passes && all[|passes|] == pass;
    assert forall i :: 0 <= i < |passes| ==> all[i] == passes[i];
    EveryRunSound(passes, pass.now);
    if ReachesEmit(pass.received) {
      var changed := if pass.received.Changed? then WithChange(w, pass.received.paths, pass.now) else w;
      assert Run(all) == EmitBlock(changed, pass);
      if Run(all).stopped {
        var p :| p in Expired(changed.eventMap, pass.emit);
        assert WaitsFor(w, pass, p);
      }
      if p :| p in w.eventMap && w.eventMap[p] + TIMEOUT <= pass.check && pass.sendFails {
        assert p in Expired(changed.eventMap, pass.emit);
      }
    }
  }

  /** The paths waiting once the pass has inserted its own, and since when. */
  ghost predicate WaitsFor(w: Watcher, pass: Pass, p: string) {
    p in w.eventMap || (pass.received.Changed? && p in pass.received.paths)
  }

  ghost function SeenFor(w: Watcher, pass: Pass, p: string): int {
    if p in w.eventMap then w.eventMap[p] else pass.now
  }

  /** Ignored events skip the emit block and change nothing, however many there are. */
  lemma {:induction false} IgnoredChangeNothing(passes: seq<Pass>, more: seq<Pass>)
    requires forall i :: 0 <= i < |more| ==> more[i].received.Ignored?
    ensures Run(passes + more) == Run(passes)
  {
    if more == [] {
      assert passes + more == passes;
    } else {
      var init := more[..|more| - 1];
      assert (passes + more)[..|passes + more| - 1] == passes + init;
      IgnoredChangeNothing(passes, init);
    }
  }

  /**
   Any number of them holds an expired path back: it waits on, unsent, until a pass
   reaches the emit block.
   */
  lemma IgnoredEventsDelay(passes: seq<Pass>, more: seq<Pass>, pass: Pass, p: string)
    requires Monotone(passes + more + [pass]) && !Run(passes).stopped && p in Run(passes).eventMap
    requires forall i :: 0 <= i < |more| ==> more[i].received.Ignored? && more[i].check >= Run(passes).eventMap[p] + TIMEOUT
    requires pass.check >= Run(passes).eventMap[p] + TIMEOUT
    ensures p in Run(passes + more).eventMap && Run(passes + more).emitted == Run(passes).emitted
    ensures Sent(Run(passes), Run(passes + more + [pass]), p) <==> ReachesEmit(pass.received) && !pass.sendFails
  {
    IgnoredChangeNothing(passes, more);
    SentWhenDue(passes + more, pass, p);
  }
}
