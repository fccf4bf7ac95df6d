/** Nothing gets lost on a connection: what handlers emit and return reaches the queue, and what is read reaches its call. */
module MultiplexDelivery {
  import opened Wrappers
  import opened Multiplex
  import opened MultiplexInvariant

  /** The queue holds what the handler emitted, in order, and its return behind what it emitted before. */
  ghost predicate Holds(queued: seq<Message>, handler: Handler) {
    && Events(queued, handler.id) == handler.emitted
    && (handler.done.Some? ==> HoldsReturn(queued, handler, handler.done.value))
  }

  ghost predicate HoldsReturn(queued: seq<Message>, handler: Handler, r: Return) {
    && r.at < |queued| && queued[r.at] == Response(handler.id, r.body)
    && r.after <= |handler.emitted| && Events(queued[..r.at], handler.id) == handler.emitted[..r.after]
  }

  ghost predicate HandlerOk(s: State, h: nat)
    requires h < |s.handlers|
  {
    Holds(s.queued, s.handlers[h])
  }

  /** The handler of the call has returned, and the client has read that. */
  ghost predicate ReplyRead(s: State, k: nat, h: nat) {
    && k < |s.calls| && h < |s.handlers|
    && s.handlers[h].id == s.calls[k].id
    && s.handlers[h].done.Some? && s.handlers[h].done.value.at < s.read
  }

  ghost predicate Delivered(s: State, k: nat, h: nat) {
    ReplyRead(s, k, h) ==> s.calls[k].reply == Some(s.handlers[h].done.value.body)
  }

  ghost predicate Delivering(s: State) {
    && (forall h :: 0 <= h < |s.handlers| ==> HandlerOk(s, h))
    && (forall k: nat, h: nat :: Delivered(s, k, h))
    && (forall k :: 0 <= k < |s.calls| && !HasId(s.calls[k]) ==> s.calls[k].id == 0)
  }

  // ----- the server's side

  lemma HandlersApart(s: State, g: nat, h: nat)
    requires ServedOnce(s) && g < |s.handlers| && h < |s.handlers| && s.handlers[g].id == s.handlers[h].id
    ensures g == h
  {
    assert Served(s)[g] == s.handlers[g].id && Served(s)[h] == s.handlers[h].id;
  }

  /** No message bears an id that no handler has. */
  lemma {:induction false} NoEventsUnserved(s: State, n: nat, id: nat)
    requires Inv(s) && n <= |s.queued| && forall h :: 0 <= h < |s.handlers| ==> s.handlers[h].id != id
    ensures Events(s.queued[..n], id) == []
  {
    if n > 0 {
      NoEventsUnserved(s, n - 1, id);
      assert s.queued[..n] == s.queued[..n - 1] + [s.queued[n - 1]];
      EventsAppend(s.queued[..n - 1], s.queued[n - 1], id);
      assert MessageOk(s, n - 1);
    }
  }

  lemma ReturnStays(queued: seq<Message>, m: Message, handler: Handler, emitted: seq<string>, r: Return)
    requires HoldsReturn(queued, handler, r) && handler.emitted <= emitted
    ensures HoldsReturn(queued + [m], handler.(emitted := emitted), r)
  {
    assert (queued + [m])[..r.at] == queued[..r.at];
    assert emitted[..r.after] == handler.emitted[..r.after];
  }

  lemma HoldsOther(queued: seq<Message>, m: Message, handler: Handler)
    requires Holds(queued, handler) && !(m.Event? && m.id == handler.id)
    ensures Holds(queued + [m], handler)
  {
    EventsAppend(queued, m, handler.id);
    if handler.done.Some? {
      ReturnStays(queued, m, handler, handler.emitted, handler.done.value);
    }
  }

  lemma HoldsEmitted(queued: seq<Message>, handler: Handler, event: string)
    requires Holds(queued, handler)
    ensures Holds(queued + [Event(handler.id, event)], handler.(emitted := handler.emitted + [event]))
  {
    var m := Event(handler.id, event);
    EventsAppend(queued, m, handler.id);
    if handler.done.Some? {
      ReturnStays(queued, m, handler, handler.emitted + [event], handler.done.value);
    }
  }

  lemma HoldsFinished(queued: seq<Message>, handler: Handler, body: string)
    requires Holds(queued, handler)
    ensures Holds(queued + [Response(handler.id, body)], handler.(done := Some(Return(body, |queued|, |handler.emitted|))))
  {
    var m := Response(handler.id, body);
    EventsAppend(queued, m, handler.id);
    assert (queued + [m])[..|queued|] == queued && handler.emitted[..|handler.emitted|] == handler.emitted;
  }

  lemma AcceptDelivers(s: State)
    requires Inv(s) && Enabled(s, Accept) && forall h :: 0 <= h < |s.handlers| ==> HandlerOk(s, h)
    ensures var s' := Apply(s, Accept); forall h :: 0 <= h < |s'.handlers| ==> HandlerOk(s', h)
  {
    var s', id := Apply(s, Accept), s.toServer[0].id;
    forall h | 0 <= h < |s.handlers| ensures s.handlers[h].id != id {
      assert Served(s)[h] == s.handlers[h].id && Served(s)[|s.handlers|] == id;
    }
    NoEventsUnserved(s, |s.queued|, id);
    assert s.queued[..|s.queued|] == s.queued;
    forall h | 0 <= h < |s'.handlers| ensures HandlerOk(s', h) {
      if h < |s.handlers| {
        assert HandlerOk(s, h);
      }
    }
  }

  lemma QueueDelivers(s: State, step: Step)
    requires Inv(s) && Enabled(s, step) && (step.RejectFrame? || step.Emit? || step.Finish?)
    requires forall h :: 0 <= h < |s.handlers| ==> HandlerOk(s, h)
    ensures var s' := Apply(s, step); forall h :: 0 <= h < |s'.handlers| ==> HandlerOk(s', h)
  {
    var s' := Apply(s, step);
    forall h | 0 <= h < |s'.handlers| ensures HandlerOk(s', h) {
      assert HandlerOk(s, h);
      if step.Emit? && step.handler == h {
        HoldsEmitted(s.queued, s.handlers[h], step.event);
      } else if step.Finish? && step.handler == h {
        HoldsFinished(s.queued, s.handlers[h], step.body);
      } else {
        if step.Emit? && s.handlers[step.handler].id == s.handlers[h].id {
          HandlersApart(s, step.handler, h);
        }
        HoldsOther(s.queued, s'.queued[|s.queued|], s.handlers[h]);
      }
    }
  }

  // ----- the client's side

  /** The call a handler works for: the one with its id, which was sent. */
  lemma HandlersCall(s: State, k: nat, h: nat)
    requires Inv(s) && Delivering(s) && k < |s.calls| && h < |s.handlers| && s.handlers[h].id == s.calls[k].id
    ensures s.calls[k].stage == Sent && s.calls[k].id >= 1
  {
    assert FromCall(s, s.handlers[h].id, s.handlers[h].request);
    var c :| 0 <= c < |s.calls| && s.calls[c].stage == Sent && s.calls[c].id == s.handlers[h].id
             && s.calls[c].request == s.handlers[h].request;
    assert CallOk(s, c);
    if HasId(s.calls[k]) {
      IdOwner(s, c, k);
    }
  }

  /** The next message is the return of the call's handler: delivering it completes the call. */
  lemma ReturnCompletes(s: State, k: nat, h: nat)
    requires Inv(s) && Delivering(s) && Enabled(s, Deliver) && k < |s.calls| && h < |s.handlers|
    requires s.handlers[h].id == s.calls[k].id && s.handlers[h].done.Some? && s.handlers[h].done.value.at == s.read
    ensures Apply(s, Deliver).calls[k].reply == Some(s.handlers[h].done.value.body)
  {
    HandlersCall(s, k, h);
    assert CallOk(s, k) && HandlerOk(s, h);
    if s.calls[k].reply.Some? {
      var g: nat :| AnsweredBy(s, k, g);
      HandlersApart(s, g, h);
    }
    assert s.queued[s.read] == Response(s.calls[k].id, s.handlers[h].done.value.body);
  }

  lemma DeliverDelivers(s: State, k: nat, h: nat)
    requires Inv(s) && Delivering(s) && Enabled(s, Deliver)
    ensures Delivered(Apply(s, Deliver), k, h)
  {
    var s' := Apply(s, Deliver);
    if ReplyRead(s', k, h) {
      if s.handlers[h].done.value.at == s.read {
        ReturnCompletes(s, k, h);
      } else {
        assert Delivered(s, k, h) && PendingOk(s, s.queued[s.read].id);
      }
    }
  }

  lemma HandlerIdIssued(s: State, h: nat)
    requires Inv(s) && h < |s.handlers|
    ensures 1 <= s.handlers[h].id <= s.issued
  {
    assert FromCall(s, s.handlers[h].id, s.handlers[h].request);
    var c :| 0 <= c < |s.calls| && s.calls[c].stage == Sent && s.calls[c].id == s.handlers[h].id
             && s.calls[c].request == s.handlers[h].request;
    assert CallOk(s, c);
  }

  /** Steps that read nothing take no reply away, and give no call an id that a handler has. */
  lemma OtherDelivers(s: State, step: Step, k: nat, h: nat)
    requires Inv(s) && Delivering(s) && Enabled(s, step) && !step.Deliver? && Apply(s, step).issued < U64
    ensures Delivered(Apply(s, step), k, h)
  {
    var s' := Apply(s, step);
    if ReplyRead(s', k, h) {
      assert h < |s.handlers| && s.handlers[h].id == s'.handlers[h].id && s.handlers[h].done == s'.handlers[h].done;
      HandlerIdIssued(s, h);
      assert Delivered(s, k, h);
    }
  }

  lemma NextDelivers(s: State, step: Step)
    requires Inv(s) && Delivering(s) && Next(s, step).issued < U64
    ensures Delivering(Next(s, step))
  {
    if Enabled(s, step) {
      var s' := Apply(s, step);
      if step.Accept? {
        AcceptDelivers(s);
      } else if step.RejectFrame? || step.Emit? || step.Finish? {
        QueueDelivers(s, step);
      } else {
        forall h | 0 <= h < |s'.handlers| ensures HandlerOk(s', h) { assert HandlerOk(s, h); }
      }
      forall k: nat, h: nat ensures Delivered(s', k, h) {
        if step.Deliver? { DeliverDelivers(s, k, h); } else { OtherDelivers(s, step, k, h); }
      }
    }
  }

  /** Every interleaving delivers, as long as the id counter has not wrapped. */
  lemma {:induction false} EveryRunDelivers(steps: seq<Step>)
    requires Run(steps).issued < U64
    ensures Delivering(Run(steps))
  {
    if steps != [] {
      var init, step := steps[..|steps| - 1], steps[|steps| - 1];
      assert steps == init + [step];
      RunOneMore(init, step);
      EveryRunDelivers(init);
      EveryRunKeepsInv(init);
      NextDelivers(Run(init), step);
    }
  }

  // ----- what callers get

  /** A return that was read is the reply of its call: no response goes astray. */
  lemma ReplyIsDelivered(steps: seq<Step>, k: nat, h: nat)
    requires Run(steps).issued < U64 && ReplyRead(Run(steps), k, h)
    ensures Run(steps).calls[k].reply == Some(Run(steps).handlers[h].done.value.body)
  {
    EveryRunDelivers(steps);
    assert Delivered(Run(steps), k, h);
  }

  /** And only then: so a call has its reply exactly when its handler's return was read. */
  lemma RepliedIffRead(steps: seq<Step>, k: nat)
    requires Run(steps).issued < U64 && k < |Run(steps).calls|
    ensures Run(steps).calls[k].reply.Some? <==> exists h: nat :: ReplyRead(Run(steps), k, h)
  {
    var s := Run(steps);
    EveryRunDelivers(steps);
    EveryRunKeepsInv(steps);
    assert CallOk(s, k);
    if s.calls[k].reply.Some? {
      var h: nat :| AnsweredBy(s, k, h);
      assert ReplyRead(s, k, h);
    }
    if h: nat :| ReplyRead(s, k, h) {
      assert Delivered(s, k, h);
    }
  }

  /** Before its reply a caller has received exactly the events its handler emitted before it returned, in order. */
  lemma EventsAreThoseEmitted(steps: seq<Step>, k: nat, h: nat)
    requires Run(steps).issued < U64 && ReplyRead(Run(steps), k, h)
    ensures var s := Run(steps);
            var handler := s.handlers[h];
            handler.done.value.after <= |handler.emitted| && s.calls[k].events == handler.emitted[..handler.done.value.after]
  {
    var s := Run(steps);
    EveryRunDelivers(steps);
    EveryRunKeepsInv(steps);
    assert CallOk(s, k) && Delivered(s, k, h) && HandlerOk(s, h);
    var g: nat :| AnsweredBy(s, k, g);
    HandlersApart(s, g, h);
  }

  // ----- an idle connection serves a request

  /** Nothing is on its way in either direction, and both tasks of the client run. */
  ghost predicate Idle(s: State) {
    s.reader == Reading && s.writing && s.toServer == [] && s.read == |s.queued|
  }

  function Ask(s: State, request: string): State {
    var k := |s.calls|;
    Next(Next(Next(Next(s, Check(request)), Allocate(k)), Register(k)), Send(k))
  }

  lemma AskSends(s: State, request: string)
    requires Idle(s)
    ensures Ask(s, request) == s.(calls := s.calls + [Call(request, s.nextId, Sent, [], None)],
                                  nextId := Wrapped(s.nextId + 1), issued := s.issued + 1,
                                  pending := s.pending[s.nextId := |s.calls|], toServer := [Envelope(s.nextId, request)])
  {
    var k := |s.calls|;
    var s1 := Next(s, Check(request));
    var s2 := Next(s1, Allocate(k));
    assert s2.calls == s.calls + [Call(request, s.nextId, Allocated, [], None)];
    var s3 := Next(s2, Register(k));
    assert s3.calls == s.calls + [Call(request, s.nextId, Registered, [], None)];
    assert Next(s3, Send(k)).calls == s.calls + [Call(request, s.nextId, Sent, [], None)];
  }

  function Work(s: State, event: string, body: string): State {
    var h := |s.handlers|;
    Next(Next(Next(s, Accept), Emit(h, event)), Finish(h, body))
  }

  lemma WorkQueues(s: State, event: string, body: string)
    requires s.toServer != []
    ensures var s', id := Work(s, event, body), s.toServer[0].id;
            && s'.queued == s.queued + [Event(id, event), Response(id, body)] && s'.toServer == s.toServer[1..]
            && s'.calls == s.calls && s'.pending == s.pending && s'.read == s.read && s'.reader == s.reader && s'.writing == s.writing
  {
    var h := |s.handlers|;
    var s1 := Next(s, Accept);
    var s2 := Next(s1, Emit(h, event));
    assert s2.handlers[h].id == s.toServer[0].id && s2.handlers[h].done.None?;
    assert s2.queued == s.queued + [Event(s.toServer[0].id, event)];
  }

  lemma ReadsEventAndReply(s: State, k: nat, id: nat, event: string, body: string)
    requires s.reader == Reading && k < |s.calls| && id in s.pending && s.pending[id] == k && s.calls[k].events == []
    requires s.read + 2 == |s.queued| && s.queued[s.read] == Event(id, event) && s.queued[s.read + 1] == Response(id, body)
    ensures var s' := Next(Next(s, Deliver), Deliver);
            && s'.calls == s.calls[k := s.calls[k].(events := [event], reply := Some(body))]
            && s'.read == |s'.queued| && s'.reader == Reading && s'.writing == s.writing && s'.toServer == s.toServer
  {
    assert [] + [event] == [event];
    var s1 := Next(s, Deliver);
    assert s1.calls == s.calls[k := s.calls[k].(events := [event])];
    assert s1.queued[s1.read] == Response(id, body);
  }

  /** From any state in which it is idle, a connection takes a request through to its events and its reply. */
  lemma IdleServes(s: State, request: string, event: string, body: string)
    requires Idle(s)
    ensures var s' := Next(Next(Work(Ask(s, request), event, body), Deliver), Deliver);
            Idle(s') && s'.calls == s.calls + [Call(request, s.nextId, Sent, [event], Some(body))]
  {
    var asked := Ask(s, request);
    AskSends(s, request);
    WorkQueues(asked, event, body);
    var worked := Work(asked, event, body);
    assert worked.queued[worked.read] == Event(s.nextId, event);
    assert worked.queued[worked.read + 1] == Response(s.nextId, body);
    ReadsEventAndReply(worked, |s.calls|, s.nextId, event, body);
  }
}
