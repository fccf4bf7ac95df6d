/** What the callers of `send_request` can rely on, in every run of a connection. */
module MultiplexGuarantees {
  import opened Wrappers
  import opened Multiplex
  import opened MultiplexInvariant

  // ----- what callers get

  /**
   A reply comes from the one handler of the call's own request, and by then the caller
   has received, in order, exactly the events that handler had queued before returning.
   */
  lemma ReplyIsFromOwnHandler(steps: seq<Step>, k: nat)
    requires Run(steps).issued < U64 && k < |Run(steps).calls| && Run(steps).calls[k].reply.Some?
    ensures exists h: nat :: AnsweredBy(Run(steps), k, h) && OnlyHandler(Run(steps), h)
  {
    var s := Run(steps);
    EveryRunKeepsInv(steps);
    assert CallOk(s, k);
    var h: nat :| AnsweredBy(s, k, h);
    forall h' | 0 <= h' < |s.handlers| && h' != h ensures s.handlers[h'].id != s.handlers[h].id {
      assert Served(s)[h'] == s.handlers[h'].id && Served(s)[h] == s.handlers[h].id;
    }
    assert OnlyHandler(s, h);
  }

  ghost predicate OnlyHandler(s: State, h: nat) {
    h < |s.handlers| && forall h' :: 0 <= h' < |s.handlers| && s.handlers[h'].id == s.handlers[h].id ==> h' == h
  }

  /** Until the reply, the caller has received exactly the events read from the connection for its id. */
  lemma EventsSoFar(steps: seq<Step>, k: nat)
    requires Run(steps).issued < U64 && k < |Run(steps).calls|
    requires HasId(Run(steps).calls[k]) && Run(steps).calls[k].reply.None?
    ensures var s := Run(steps);
            s.read <= |s.queued| && s.calls[k].events == Events(s.queued[..s.read], s.calls[k].id)
  {
    EveryRunKeepsInv(steps);
    assert CallOk(Run(steps), k);
  }

  /** Ids are not reused, and 0, the id of errors about unreadable frames, is never waited for. */
  lemma IdsAreFresh(steps: seq<Step>)
    requires Run(steps).issued < U64
    ensures DistinctIds(Run(steps)) && 0 !in Run(steps).pending
  {
    EveryRunKeepsInv(steps);
    assert PendingOk(Run(steps), 0);
    assert 0 in Run(steps).pending ==> CallOk(Run(steps), Run(steps).pending[0]);
  }

  predicate CounterRight(s: State) {
    s.nextId == (s.issued + 1) % U64
  }

  lemma CounterStep(s: State, step: Step)
    requires CounterRight(s)
    ensures CounterRight(Next(s, step))
  {
  }

  lemma CounterRun(steps: seq<Step>, step: Step)
    requires CounterRight(Run(steps))
    ensures CounterRight(Run(steps + [step]))
  {
    RunOneMore(steps, step);
    CounterStep(Run(steps), step);
  }

  lemma {:induction false} CounterHolds(steps: seq<Step>)
    ensures CounterRight(Run(steps))
  {
    if steps != [] {
      var init, step := steps[..|steps| - 1], steps[|steps| - 1];
      CounterHolds(init);
      CounterRun(init, step);
      assert steps == init + [step];
    }
  }

  /** The bound is sharp: the counter goes round, and after 2^64 - 1 ids the next one is 0. */
  lemma {:induction false} CounterGoesRound(steps: seq<Step>)
    ensures CounterRight(Run(steps))
    ensures Run(steps).issued == U64 - 1 ==> Run(steps).nextId == 0
  {
    CounterHolds(steps);
  }

  lemma ReplyStays(s: State, step: Step, k: nat)
    requires Inv(s) && k < |s.calls| && s.calls[k].reply.Some?
    ensures k < |Next(s, step).calls| && Next(s, step).calls[k] == s.calls[k]
  {
    assert CallOk(s, k);
    if Enabled(s, step) && step.Deliver? {
      assert PendingOk(s, s.queued[s.read].id);
    }
  }

  /** A call gets at most one reply: whatever follows, what it received is final. */
  lemma {:induction false} AtMostOneReply(steps: seq<Step>, more: seq<Step>, k: nat)
    requires Run(steps + more).issued < U64 && k < |Run(steps).calls| && Run(steps).calls[k].reply.Some?
    ensures k < |Run(steps + more).calls| && Run(steps + more).calls[k] == Run(steps).calls[k]
  {
    if more == [] {
      assert steps + more == steps;
    } else {
      var init, step := more[..|more| - 1], more[|more| - 1];
      assert steps + more == (steps + init) + [step];
      RunOneMore(steps + init, step);
      AtMostOneReply(steps, init, k);
      EveryRunKeepsInv(steps + init);
      ReplyStays(Run(steps + init), step, k);
    }
  }

  // ----- losing the connection

  /** The sender half of the call's reply channel is still held. */
  ghost predicate Held(s: State, k: nat) {
    k < |s.calls| && s.calls[k].id in s.pending && s.pending[s.calls[k].id] == k
  }

  /** The call's future is pending: its frame was taken, no reply has come, and none is ruled out. */
  ghost predicate Waits(s: State, k: nat) {
    k < |s.calls| && s.calls[k].stage == Sent && s.calls[k].reply.None? && Held(s, k)
  }

  ghost predicate WasRegistered(s: State, k: nat) {
    k < |s.calls| && IsRegistered(s.calls[k])
  }

  /** Of the registered calls in `s`, exactly those that were not yet registered in `s0` are held. */
  ghost predicate Woken(s0: State, s: State) {
    && s.reader == Stopped
    && (forall k: nat :: WasRegistered(s0, k) ==> WasRegistered(s, k))
    && forall k: nat :: WasRegistered(s, k) ==> (Held(s, k) <==> !WasRegistered(s0, k))
  }

  lemma WokenRun(s0: State, steps: seq<Step>, step: Step)
    requires Run(steps + [step]).issued < U64 && Woken(s0, Run(steps))
    ensures Woken(s0, Run(steps + [step]))
  {
    RunOneMore(steps, step);
    EveryRunKeepsInv(steps);
  }

  lemma {:induction false} EveryRunWoken(before: seq<Step>, after: seq<Step>)
    requires Run(before).reader == Closing && Run(before + [Clear] + after).issued < U64
    ensures Woken(Run(before), Run(before + [Clear] + after))
  {
    if after == [] {
      assert before + [Clear] + after == before + [Clear];
      RunOneMore(before, Clear);
    } else {
      var init, step := after[..|after| - 1], after[|after| - 1];
      var steps := before + [Clear] + init;
      assert before + [Clear] + after == steps + [step];
      RunOneMore(steps, step);
      EveryRunWoken(before, init);
      WokenRun(Run(before), steps, step);
    }
  }

  /**
   After a lost connection was cleared, exactly those calls wait that registered later and
   whose frame the writer still took. All others have their reply or an error.
   */
  lemma LossWakesTheRegistered(before: seq<Step>, after: seq<Step>)
    requires Run(before).reader == Closing && Run(before + [Clear] + after).issued < U64
    ensures var s := Run(before + [Clear] + after);
            && s.reader == Stopped
            && forall k: nat :: Waits(s, k) <==> k < |s.calls| && s.calls[k].stage == Sent && !WasRegistered(Run(before), k)
  {
    var s := Run(before + [Clear] + after);
    EveryRunWoken(before, after);
    EveryRunKeepsInv(before + [Clear] + after);
    forall k: nat | k < |s.calls| && s.calls[k].stage == Sent
      ensures Waits(s, k) <==> !WasRegistered(Run(before), k)
    {
      assert WasRegistered(s, k) && PendingOk(s, s.calls[k].id);
    }
  }

  lemma {:induction false} SentStays(steps: seq<Step>, more: seq<Step>, k: nat)
    requires Run(steps + more).issued < U64 && k < |Run(steps).calls| && Run(steps).calls[k].stage == Sent
    ensures k < |Run(steps + more).calls| && Run(steps + more).calls[k].stage == Sent
  {
    if more == [] {
      assert steps + more == steps;
    } else {
      var init, step := more[..|more| - 1], more[|more| - 1];
      assert steps + more == (steps + init) + [step];
      RunOneMore(steps + init, step);
      SentStays(steps, init, k);
      EveryRunKeepsInv(steps + init);
      NextGrows(Run(steps + init), step);
      assert CallGrows(Run(steps + init).calls[k], Run(steps + more).calls[k]);
    }
  }

  /** Such a call waits for good: whatever follows, it still waits. */
  lemma WaitsForGood(before: seq<Step>, after: seq<Step>, more: seq<Step>, k: nat)
    requires Run(before).reader == Closing && Run(before + [Clear] + after + more).issued < U64
    requires Run(before + [Clear] + after).issued < U64 && Waits(Run(before + [Clear] + after), k)
    ensures Waits(Run(before + [Clear] + after + more), k)
  {
    assert before + [Clear] + (after + more) == before + [Clear] + after + more;
    LossWakesTheRegistered(before, after);
    SentStays(before + [Clear] + after, more, k);
    LossWakesTheRegistered(before, after + more);
  }

  lemma LostStaysLost(s: State, step: Step)
    requires s.reader != Reading
    ensures Next(s, step).reader != Reading && |Next(s, step).calls| == |s.calls|
  {
  }

  /** Once the reader has noticed the loss, no further call gets past the connected check. */
  lemma {:induction false} NoCallAfterLoss(steps: seq<Step>, more: seq<Step>)
    requires Run(steps).reader != Reading
    ensures Run(steps + more).reader != Reading && |Run(steps + more).calls| == |Run(steps).calls|
  {
    if more == [] {
      assert steps + more == steps;
    } else {
      var init, step := more[..|more| - 1], more[|more| - 1];
      assert steps + more == (steps + init) + [step];
      RunOneMore(steps + init, step);
      NoCallAfterLoss(steps, init);
      LostStaysLost(Run(steps + init), step);
    }
  }

  /** Such a call exists, and with the writer gone the same call is refused instead. */
  lemma LateCallIsHeld(request: string)
    ensures var late := [Check(request), Lose, Clear, Allocate(0), Register(0)];
            var taken, refused := Run(late + [Send(0)]), Run(late + [StopWriter(0)] + [Send(0)]);
            Waits(taken, 0) && |refused.calls| == 1 && refused.calls[0].stage == Refused && !Waits(refused, 0)
  {
    var late := [Check(request), Lose, Clear, Allocate(0), Register(0)];
    LateRegistered(request);
    RunOneMore(late, Send(0));
    RunOneMore(late, StopWriter(0));
    RunOneMore(late + [StopWriter(0)], Send(0));
  }

  lemma CheckedThenLost(request: string)
    ensures Run([Check(request), Lose, Clear]) == Init.(calls := [Call(request, 0, Checked, [], None)], reader := Stopped)
  {
    var a, b := [Check(request)], [Check(request), Lose];
    assert [] + [Check(request)] == a && a + [Lose] == b && b + [Clear] == [Check(request), Lose, Clear];
    RunOneMore([], Check(request));
    RunOneMore(a, Lose);
    RunOneMore(b, Clear);
  }

  lemma LateRegistered(request: string)
    ensures Run([Check(request), Lose, Clear, Allocate(0), Register(0)]) ==
              Init.(calls := [Call(request, 1, Registered, [], None)], nextId := 2, issued := 1, pending := map[1 := 0],
                    reader := Stopped)
  {
    var lost := [Check(request), Lose, Clear];
    CheckedThenLost(request);
    var s := Run(lost);
    var s1 := s.(calls := [Call(request, 1, Allocated, [], None)], nextId := 2, issued := 1);
    assert Next(s, Allocate(0)) == s1;
    RunOneMore(lost, Allocate(0));
    RunOneMore(lost + [Allocate(0)], Register(0));
    assert lost + [Allocate(0)] + [Register(0)] == [Check(request), Lose, Clear, Allocate(0), Register(0)];
    assert Next(s1, Register(0)).calls == [Call(request, 1, Registered, [], None)];
  }
}
