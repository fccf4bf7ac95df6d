/** Every step of a connection, and so every run, keeps the invariant. */
module MultiplexInvariant {
  import opened Wrappers
  import opened Multiplex

  // ----- every step keeps the invariant

  /** The parts of the invariant that concern the server, for steps that leave envelopes and messages alone. */
  lemma ServerSideStays(s: State, s': State)
    requires Inv(s) && Grows(s, s')
    requires s'.toServer == s.toServer && s'.handlers == s.handlers && s'.queued == s.queued
    ensures ServedOnce(s') && EnvelopesOk(s') && forall i :: 0 <= i < |s'.queued| ==> MessageOk(s', i)
  {
    assert Served(s') == Served(s);
    forall h | 0 <= h < |s.handlers| ensures FromCall(s', s.handlers[h].id, s.handlers[h].request) {
      OriginStays(s, s', s.handlers[h].id, s.handlers[h].request);
    }
    forall i | 0 <= i < |s.toServer| ensures FromCall(s', s.toServer[i].id, s.toServer[i].request) {
      OriginStays(s, s', s.toServer[i].id, s.toServer[i].request);
    }
    forall i | 0 <= i < |s.queued| ensures MessageOk(s', i) {
      MessageStays(s, s', i);
    }
  }

  /** A call no step touches stays in order, if the messages read for it are the same. */
  lemma CallStays(s: State, s': State, k: nat)
    requires Inv(s) && Grows(s, s') && k < |s.calls| && s'.calls[k] == s.calls[k]
    requires s.issued <= s'.issued
    requires HasId(s.calls[k]) && s.calls[k].reply.None? ==>
               Events(s'.queued[..s'.read], s.calls[k].id) == Events(s.queued[..s.read], s.calls[k].id)
    requires s'.reader == Stopped || s.reader != Stopped
    requires IsRegistered(s.calls[k]) && s.calls[k].reply.None? && s'.reader != Stopped ==>
               s.calls[k].id in s'.pending && s'.pending[s.calls[k].id] == k
    ensures CallOk(s', k)
  {
    assert CallOk(s, k);
    if s.calls[k].reply.Some? {
      var h: nat :| AnsweredBy(s, k, h);
      AnswerStays(s, s', k, h);
    }
  }

  lemma CheckKeeps(s: State, request: string)
    requires Inv(s) && s.reader == Reading
    ensures Inv(Apply(s, Check(request)))
  {
    var s' := Apply(s, Check(request));
    NextGrows(s, Check(request));
    ServerSideStays(s, s');
    forall k | 0 <= k < |s'.calls| ensures CallOk(s', k) {
      if k < |s.calls| {
        assert CallOk(s, k);
        CallStays(s, s', k);
      }
    }
    forall id ensures PendingOk(s', id) { assert PendingOk(s, id); }
  }

  lemma AllocateKeeps(s: State, k: nat)
    requires Inv(s) && Enabled(s, Allocate(k)) && s.issued + 1 < U64
    ensures Inv(Apply(s, Allocate(k)))
  {
    var s' := Apply(s, Allocate(k));
    NextGrows(s, Allocate(k));
    ServerSideStays(s, s');
    assert s.nextId == s.issued + 1;
    forall j | 0 <= j < |s'.calls| ensures CallOk(s', j) {
      assert CallOk(s, j);
      if j != k {
        CallStays(s, s', j);
      } else {
        forall c | 0 <= c < |s.calls| && s.calls[c].stage == Sent ensures s.calls[c].id != s.nextId {
          assert CallOk(s, c);
        }
        NoEventsUnsent(s, s.read, s.nextId);
      }
    }
    forall id ensures PendingOk(s', id) { assert PendingOk(s, id); }
    forall j | 0 <= j < |s.calls| && HasId(s.calls[j]) ensures s.calls[j].id != s.nextId {
      assert CallOk(s, j);
    }
  }

  lemma RegisterKeeps(s: State, k: nat)
    requires Inv(s) && Enabled(s, Register(k))
    ensures Inv(Apply(s, Register(k)))
  {
    var s' := Apply(s, Register(k));
    NextGrows(s, Register(k));
    ServerSideStays(s, s');
    assert CallOk(s, k);
    forall j | 0 <= j < |s'.calls| ensures CallOk(s', j) {
      assert CallOk(s, j);
      if j != k {
        if HasId(s.calls[j]) && s.calls[j].id == s.calls[k].id {
          IdOwner(s, j, k);
        }
        CallStays(s, s', j);
      }
    }
    forall id ensures PendingOk(s', id) { assert PendingOk(s, id); }
  }

  lemma RefuseKeeps(s: State, k: nat)
    requires Inv(s) && Enabled(s, Send(k)) && !s.writing
    ensures Inv(Apply(s, Send(k)))
  {
    var s' := Apply(s, Send(k));
    NextGrows(s, Send(k));
    ServerSideStays(s, s');
    forall j | 0 <= j < |s'.calls| ensures CallOk(s', j) {
      assert CallOk(s, j);
      if j != k {
        CallStays(s, s', j);
      }
    }
    forall id ensures PendingOk(s', id) { assert PendingOk(s, id); }
  }

  /** Frames that are lost with the writer leave the others as they were. */
  lemma StopKeeps(s: State, kept: nat)
    requires Inv(s) && Enabled(s, StopWriter(kept))
    ensures Inv(Apply(s, StopWriter(kept)))
  {
    var s' := Apply(s, StopWriter(kept));
    NextGrows(s, StopWriter(kept));
    forall j | 0 <= j < |s'.calls| ensures CallOk(s', j) {
      assert CallOk(s, j);
      CallStays(s, s', j);
    }
    forall id ensures PendingOk(s', id) { assert PendingOk(s, id); }
    forall i | 0 <= i < |s.queued| ensures MessageOk(s', i) { MessageStays(s, s', i); }
    forall i | 0 <= i < |Served(s')| ensures Served(s')[i] == Served(s)[i] { }
    forall h | 0 <= h < |s'.handlers| ensures FromCall(s', s'.handlers[h].id, s'.handlers[h].request) {
      OriginStays(s, s', s.handlers[h].id, s.handlers[h].request);
    }
    forall i | 0 <= i < |s'.toServer| ensures FromCall(s', s'.toServer[i].id, s'.toServer[i].request) {
      OriginStays(s, s', s.toServer[i].id, s.toServer[i].request);
    }
  }

  lemma SendKeeps(s: State, k: nat)
    requires Inv(s) && Enabled(s, Send(k)) && s.writing
    ensures Inv(Apply(s, Send(k)))
  {
    var s' := Apply(s, Send(k));
    NextGrows(s, Send(k));
    forall j | 0 <= j < |s'.calls| ensures CallOk(s', j) {
      assert CallOk(s, j);
      if j != k {
        CallStays(s, s', j);
      }
    }
    forall id ensures PendingOk(s', id) { assert PendingOk(s, id); }
    forall i | 0 <= i < |s.queued| ensures MessageOk(s', i) { MessageStays(s, s', i); }
    assert Served(s') == Served(s) + [s.calls[k].id];
  }

  lemma AcceptKeeps(s: State)
    requires Inv(s) && Enabled(s, Accept)
    ensures Inv(Apply(s, Accept))
  {
    var s' := Apply(s, Accept);
    NextGrows(s, Accept);
    forall j | 0 <= j < |s'.calls| ensures CallOk(s', j) {
      assert CallOk(s, j);
      CallStays(s, s', j);
    }
    forall id ensures PendingOk(s', id) { assert PendingOk(s, id); }
    forall i | 0 <= i < |s.queued| ensures MessageOk(s', i) { MessageStays(s, s', i); }
    assert Served(s') == Served(s);
    forall h | 0 <= h < |s'.handlers| ensures FromCall(s', s'.handlers[h].id, s'.handlers[h].request) {
      if h < |s.handlers| {
        OriginStays(s, s', s.handlers[h].id, s.handlers[h].request);
      } else {
        OriginStays(s, s', s.toServer[0].id, s.toServer[0].request);
      }
    }
    forall i | 0 <= i < |s'.toServer| ensures FromCall(s', s'.toServer[i].id, s'.toServer[i].request) {
      OriginStays(s, s', s.toServer[i + 1].id, s.toServer[i + 1].request);
    }
  }

  /** Steps of the server that queue one more message. */
  lemma QueueKeeps(s: State, s': State, m: Message)
    requires Inv(s) && Grows(s, s') && s'.queued == s.queued + [m] && MessageOk(s', |s.queued|)
    requires s'.calls == s.calls && s'.pending == s.pending && s'.read == s.read && s'.reader == s.reader
    requires s'.nextId == s.nextId && s'.issued == s.issued && s'.toServer == s.toServer
    requires |s'.handlers| == |s.handlers|
    ensures Inv(s')
  {
    assert s'.queued[..s'.read] == s.queued[..s.read];
    forall j | 0 <= j < |s'.calls| ensures CallOk(s', j) {
      assert CallOk(s, j);
      CallStays(s, s', j);
    }
    forall id ensures PendingOk(s', id) { assert PendingOk(s, id); }
    forall i | 0 <= i < |s'.queued| ensures MessageOk(s', i) {
      if i < |s.queued| { MessageStays(s, s', i); }
    }
    forall h | 0 <= h < |s.handlers| ensures s'.handlers[h].id == s.handlers[h].id {
      assert HandlerGrows(s.handlers[h], s'.handlers[h]);
    }
    assert Served(s') == Served(s);
  }

  lemma ServerKeeps(s: State, step: Step)
    requires Inv(s) && Enabled(s, step) && (step.RejectFrame? || step.Emit? || step.Finish?)
    ensures Inv(Apply(s, step))
  {
    var s' := Apply(s, step);
    NextGrows(s, step);
    var m := s'.queued[|s.queued|];
    assert s'.queued == s.queued + [m];
    if step.Emit? || step.Finish? {
      assert SentBy(s', |s.queued|, step.handler);
    }
    QueueKeeps(s, s', m);
  }

  lemma LossKeeps(s: State, step: Step)
    requires Inv(s) && Enabled(s, step) && (step.Lose? || step.Clear?)
    ensures Inv(Apply(s, step))
  {
    var s' := Apply(s, step);
    NextGrows(s, step);
    ServerSideStays(s, s');
    forall j | 0 <= j < |s'.calls| ensures CallOk(s', j) {
      assert CallOk(s, j);
      CallStays(s, s', j);
    }
    forall id ensures PendingOk(s', id) { assert PendingOk(s, id); }
  }

  lemma ReadOneMore(s: State, id: nat)
    requires s.read < |s.queued|
    ensures var m := s.queued[s.read];
            Events(s.queued[..s.read + 1], id) == Events(s.queued[..s.read], id) + if m.Event? && m.id == id then [m.body] else []
  {
    assert s.queued[..s.read + 1] == s.queued[..s.read] + [s.queued[s.read]];
    EventsAppend(s.queued[..s.read], s.queued[s.read], id);
  }

  /** While the reader runs, an event for a call without a reply finds it in the pending map. */
  lemma EventFindsCall(s: State, j: nat)
    requires Inv(s) && Enabled(s, Deliver) && j < |s.calls| && HasId(s.calls[j]) && s.calls[j].reply.None?
    requires s.queued[s.read].Event? && s.queued[s.read].id == s.calls[j].id
    ensures s.calls[j].id in s.pending && s.pending[s.calls[j].id] == j
  {
    var c := MessageHasSender(s, s.read);
    IdOwner(s, c, j);
    assert CallOk(s, j);
  }

  lemma DeliverPassesBy(s: State, j: nat)
    requires Inv(s) && Enabled(s, Deliver) && j < |s.calls|
    requires s.queued[s.read].id in s.pending ==> s.pending[s.queued[s.read].id] != j
    ensures CallOk(Apply(s, Deliver), j)
  {
    var s' := Apply(s, Deliver);
    NextGrows(s, Deliver);
    assert CallOk(s, j) && PendingOk(s, s.queued[s.read].id);
    if HasId(s.calls[j]) && s.calls[j].reply.None? {
      ReadOneMore(s, s.calls[j].id);
      if s.queued[s.read].Event? && s.queued[s.read].id == s.calls[j].id {
        EventFindsCall(s, j);
      }
    }
    CallStays(s, s', j);
  }

  /** A response that finds its call completes it with the return of the call's own handler. */
  lemma ResponseCompletes(s: State, k: nat)
    requires Inv(s) && Enabled(s, Deliver) && s.queued[s.read].Response? && k < |s.calls|
    requires s.queued[s.read].id in s.pending && s.pending[s.queued[s.read].id] == k
    ensures CallOk(Apply(s, Deliver), k)
  {
    var s', m := Apply(s, Deliver), s.queued[s.read];
    assert PendingOk(s, m.id);
    assert CallOk(s, k) && MessageOk(s, s.read);
    var h: nat :| SentBy(s, s.read, h);
    assert FromCall(s, s.handlers[h].id, s.handlers[h].request);
    var c :| 0 <= c < |s.calls| && s.calls[c].stage == Sent && s.calls[c].id == s.handlers[h].id
             && s.calls[c].request == s.handlers[h].request;
    IdOwner(s, c, k);
    assert AnsweredBy(s', k, h);
  }

  lemma DeliverKeeps(s: State)
    requires Inv(s) && Enabled(s, Deliver)
    ensures Inv(Apply(s, Deliver))
  {
    var s', m := Apply(s, Deliver), s.queued[s.read];
    NextGrows(s, Deliver);
    ServerSideStays(s, s');
    assert PendingOk(s, m.id);
    forall j | 0 <= j < |s'.calls| ensures CallOk(s', j) {
      if m.id in s.pending && s.pending[m.id] == j {
        if m.Response? {
          ResponseCompletes(s, j);
        } else {
          assert CallOk(s, j);
          ReadOneMore(s, m.id);
        }
      } else {
        DeliverPassesBy(s, j);
      }
    }
    DeliverPending(s);
  }

  lemma DeliverPending(s: State)
    requires Inv(s) && Enabled(s, Deliver)
    ensures forall id :: PendingOk(Apply(s, Deliver), id)
  {
    assert PendingOk(s, s.queued[s.read].id);
    forall id ensures PendingOk(Apply(s, Deliver), id) {
      assert PendingOk(s, id);
    }
  }

  lemma NextKeeps(s: State, step: Step)
    requires Inv(s) && Next(s, step).issued < U64
    ensures Inv(Next(s, step))
  {
    if Enabled(s, step) {
      match step
      case Check(request) => CheckKeeps(s, request);
      case Allocate(k) => AllocateKeeps(s, k);
      case Register(k) => RegisterKeeps(s, k);
      case Send(k) => if s.writing { SendKeeps(s, k); } else { RefuseKeeps(s, k); }
      case StopWriter(kept) => StopKeeps(s, kept);
      case Accept => AcceptKeeps(s);
      case RejectFrame(_) => ServerKeeps(s, step);
      case Emit(_, _) => ServerKeeps(s, step);
      case Finish(_, _) => ServerKeeps(s, step);
      case Deliver => DeliverKeeps(s);
      case Lose => LossKeeps(s, step);
      case Clear => LossKeeps(s, step);
    }
  }

  /** Every interleaving keeps the invariant, as long as the id counter has not wrapped. */
  lemma {:induction false} EveryRunKeepsInv(steps: seq<Step>)
    requires Run(steps).issued < U64
    ensures Inv(Run(steps))
  {
    if steps != [] {
      var before := Run(steps[..|steps| - 1]);
      assert before.issued <= Run(steps).issued;
      EveryRunKeepsInv(steps[..|steps| - 1]);
      NextKeeps(before, steps[|steps| - 1]);
    }
  }
}
