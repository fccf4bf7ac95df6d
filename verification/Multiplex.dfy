/**
 One multiplexed connection: any number of concurrent `send_request` calls, the
 client's reader task, the server's reader loop, its spawned request handlers and
 the two first-in-first-out writers. A run is any interleaving of their steps.

 A channel and the socket behind it are one queue here, since both keep order; the
 byte level is the subject of `Framing`.
 */
module Multiplex {
  import opened Wrappers

  const U64: nat := 0x1_0000_0000_0000_0000

  /**
   How far a `send_request` call has come. The frame of a `Sent` call was taken by the
   writer and its future awaits the reply; a `Refused` one found the writer gone and
   returned an error.
   */
  datatype Stage = Checked | Allocated | Registered | Sent | Refused

  /** A call with what its caller has received: events on the progress channel, then the reply. */
  datatype Call = Call(request: string, id: nat, stage: Stage, events: seq<string>, reply: Option<string>)

  datatype Envelope = Envelope(id: nat, request: string)

  datatype Message = Response(id: nat, body: string) | Event(id: nat, body: string)

  /** What a handler returned, its place among all messages the server queued, and the number of events before. */
  datatype Return = Return(body: string, at: nat, after: nat)

  datatype Handler = Handler(id: nat, request: string, emitted: seq<string>, done: Option<Return>)

  /** The reader task: running, after marking the connection lost, after clearing the pending map. */
  datatype Reader = Reading | Closing | Stopped

  datatype State = State(
    calls: seq<Call>,
    nextId: nat,
    issued: nat,           // ids handed out so far
    pending: map<nat, nat>,   // request id to call
    reader: Reader,           // the `connected` flag is set while it is `Reading`
    writing: bool,            // whether the client's writer task still runs
    toServer: seq<Envelope>,
    handlers: seq<Handler>,
    queued: seq<Message>,     // every message the server ever put on its write channel
    read: nat)                // how many of them the client has read

  datatype Step =
    | Check(request: string)            // `send_request`: the connected check
    | Allocate(call: nat)               // `fetch_add` on the id counter
    | Register(call: nat)               // insertion into the pending map
    | Send(call: nat)                   // the future is polled: the frame is queued, or refused without a writer
    | StopWriter(kept: nat)             // a write fails and ends the writer; what it had not written is lost
    | Accept                            // the server reads a frame and spawns its handler
    | RejectFrame(body: string)         // the server answers an unreadable frame with id 0
    | Emit(handler: nat, event: string) // an event through the handler's progress sender
    | Finish(handler: nat, body: string)
    | Deliver                           // the client reads the next message
    | Lose                              // the client's reader hits an error or the end
    | Clear                             // and clears the pending map

  const Init := State([], 1, 0, map[], Reading, true, [], [], [], 0)

  predicate HasId(c: Call) { c.stage != Checked }

  predicate IsRegistered(c: Call) { c.stage == Registered || c.stage == Sent || c.stage == Refused }

  predicate Enabled(s: State, step: Step) {
    match step
    case Check(_) => s.reader == Reading
    case Allocate(k) => k < |s.calls| && s.calls[k].stage == Checked
    case Register(k) => k < |s.calls| && s.calls[k].stage == Allocated
    case Send(k) => k < |s.calls| && s.calls[k].stage == Registered
    case StopWriter(kept) => s.writing && kept <= |s.toServer|
    case Accept => s.toServer != []
    case RejectFrame(_) => true
    case Emit(h, _) => h < |s.handlers|
    case Finish(h, _) => h < |s.handlers| && s.handlers[h].done.None?
    case Deliver => s.reader == Reading && s.read < |s.queued|
    case Lose => s.reader == Reading
    case Clear => s.reader == Closing
  }

  /** The counter's 64 bits: after 2^64 - 1 comes 0. */
  function Wrapped(n: nat): nat {
    if n == U64 then 0 else n
  }

  /** The client's dispatch of one message through the pending map. */
  function Dispatch(s: State, m: Message): State {
    if m.id !in s.pending || s.pending[m.id] >= |s.calls| then s
    else
      var k := s.pending[m.id];
      match m
      case Response(id, body) => s.(pending := s.pending - {id}, calls := s.calls[k := s.calls[k].(reply := Some(body))])
      case Event(_, body) => s.(calls := s.calls[k := s.calls[k].(events := s.calls[k].events + [body])])
  }

  function Apply(s: State, step: Step): State
    requires Enabled(s, step)
  {
    match step
    case Check(request) => s.(calls := s.calls + [Call(request, 0, Checked, [], None)])
    case Allocate(k) =>
      s.(calls := s.calls[k := s.calls[k].(id := s.nextId, stage := Allocated)],
         nextId := Wrapped(s.nextId + 1), issued := s.issued + 1)
    case Register(k) =>
      s.(calls := s.calls[k := s.calls[k].(stage := Registered)], pending := s.pending[s.calls[k].id := k])
    case Send(k) =>
      if s.writing then
        s.(calls := s.calls[k := s.calls[k].(stage := Sent)],
           toServer := s.toServer + [Envelope(s.calls[k].id, s.calls[k].request)])
      else s.(calls := s.calls[k := s.calls[k].(stage := Refused)])
    case StopWriter(kept) => s.(writing := false, toServer := s.toServer[..kept])
    case Accept =>
      s.(toServer := s.toServer[1..], handlers := s.handlers + [Handler(s.toServer[0].id, s.toServer[0].request, [], None)])
    case RejectFrame(body) => s.(queued := s.queued + [Response(0, body)])
    case Emit(h, event) =>
      s.(handlers := s.handlers[h := s.handlers[h].(emitted := s.handlers[h].emitted + [event])],
         queued := s.queued + [Event(s.handlers[h].id, event)])
    case Finish(h, body) =>
      s.(handlers := s.handlers[h := s.handlers[h].(done := Some(Return(body, |s.queued|, |s.handlers[h].emitted|)))],
         queued := s.queued + [Response(s.handlers[h].id, body)])
    case Deliver => Dispatch(s, s.queued[s.read]).(read := s.read + 1)
    case Lose => s.(reader := Closing)
    case Clear => s.(reader := Stopped, pending := map[])
  }

  function Next(s: State, step: Step): State {
    if Enabled(s, step) then Apply(s, step) else s
  }

  /** The state after an interleaving; a step that is not possible where it stands is skipped. */
  function Run(steps: seq<Step>): State {
    if steps == [] then Init else Next(Run(steps[..|steps| - 1]), steps[|steps| - 1])
  }

  lemma RunOneMore(steps: seq<Step>, step: Step)
    ensures Run(steps + [step]) == Next(Run(steps), step) && Run(steps).issued <= Run(steps + [step]).issued
  {
    assert (steps + [step])[..|steps|] == steps;
  }

  /** The events for one request among the messages, in order. */
  function Events(messages: seq<Message>, id: nat): seq<string> {
    if messages == [] then []
    else
      var last := messages[|messages| - 1];
      Events(messages[..|messages| - 1], id) + if last.Event? && last.id == id then [last.body] else []
  }

  // ----- the invariant

  /** The reply of call `k` is what the handler of its own request returned, after all it had emitted. */
  ghost predicate AnsweredBy(s: State, k: nat, h: nat) {
    && k < |s.calls| && h < |s.handlers|
    && s.handlers[h].id == s.calls[k].id
    && s.handlers[h].request == s.calls[k].request
    && s.handlers[h].done.Some?
    && s.handlers[h].done.value.at < s.read <= |s.queued|
    && s.calls[k].reply == Some(s.handlers[h].done.value.body)
    && s.calls[k].events == Events(s.queued[..s.handlers[h].done.value.at], s.calls[k].id)
  }

  ghost predicate CallOk(s: State, k: nat)
    requires k < |s.calls| && s.read <= |s.queued|
  {
    var c := s.calls[k];
    && (HasId(c) ==> 1 <= c.id <= s.issued)
    && (!HasId(c) ==> c.events == [] && c.reply.None?)
    && (HasId(c) && c.reply.None? ==> c.events == Events(s.queued[..s.read], c.id))
    && (c.reply.Some? ==> c.stage == Sent && exists h: nat :: AnsweredBy(s, k, h))
    && (IsRegistered(c) && c.reply.None? && s.reader != Stopped ==> c.id in s.pending && s.pending[c.id] == k)
  }

  ghost predicate PendingOk(s: State, id: nat) {
    id in s.pending ==>
      var k := s.pending[id];
      k < |s.calls| && s.calls[k].id == id && IsRegistered(s.calls[k]) && s.calls[k].reply.None?
  }

  ghost predicate DistinctIds(s: State) {
    forall j, k :: 0 <= j < k < |s.calls| && HasId(s.calls[j]) && HasId(s.calls[k]) ==> s.calls[j].id != s.calls[k].id
  }

  /** An envelope on its way or already with a handler comes from a call that was sent. */
  ghost predicate FromCall(s: State, id: nat, request: string) {
    exists k :: 0 <= k < |s.calls| && s.calls[k].stage == Sent && s.calls[k].id == id && s.calls[k].request == request
  }

  /** The ids the server has received, then those on their way. */
  ghost function Served(s: State): seq<nat> {
    seq(|s.handlers|, i requires 0 <= i < |s.handlers| => s.handlers[i].id)
    + seq(|s.toServer|, i requires 0 <= i < |s.toServer| => s.toServer[i].id)
  }

  ghost predicate ServedOnce(s: State) {
    var ids := Served(s);
    forall i, j :: 0 <= i < j < |ids| ==> ids[i] != ids[j]
  }

  ghost predicate EnvelopesOk(s: State) {
    && (forall h :: 0 <= h < |s.handlers| ==> FromCall(s, s.handlers[h].id, s.handlers[h].request))
    && (forall i :: 0 <= i < |s.toServer| ==> FromCall(s, s.toServer[i].id, s.toServer[i].request))
  }

  /** A queued message is an error with id 0, or belongs to a handler; a response is what it returned. */
  ghost predicate MessageOk(s: State, i: nat)
    requires i < |s.queued|
  {
    var m := s.queued[i];
    (m.Response? && m.id == 0) || exists h: nat :: SentBy(s, i, h)
  }

  ghost predicate SentBy(s: State, i: nat, h: nat) {
    && i < |s.queued| && h < |s.handlers|
    && s.handlers[h].id == s.queued[i].id
    && (s.queued[i].Response? ==>
          s.handlers[h].done.Some? && s.handlers[h].done.value.body == s.queued[i].body && s.handlers[h].done.value.at == i)
  }

  ghost predicate Inv(s: State) {
    && s.read <= |s.queued|
    && s.nextId == (s.issued + 1) % U64
    && (forall k :: 0 <= k < |s.calls| ==> CallOk(s, k))
    && (forall id :: PendingOk(s, id))
    && DistinctIds(s)
    && ServedOnce(s)
    && EnvelopesOk(s)
    && (forall i :: 0 <= i < |s.queued| ==> MessageOk(s, i))
  }

  // ----- what no step takes back

  ghost predicate CallGrows(c: Call, c': Call) {
    && c'.request == c.request
    && (HasId(c) ==> HasId(c') && c'.id == c.id)
    && (IsRegistered(c) ==> IsRegistered(c'))
    && (c.stage == Sent ==> c'.stage == Sent)
    && (c.stage == Refused ==> c'.stage == Refused)
  }

  ghost predicate HandlerGrows(h: Handler, h': Handler) {
    h'.id == h.id && h'.request == h.request && (h.done.Some? ==> h'.done == h.done)
  }

  ghost predicate Grows(s: State, s': State) {
    && s.queued <= s'.queued && s.read <= s'.read <= |s'.queued|
    && |s.calls| <= |s'.calls| && (forall k :: 0 <= k < |s.calls| ==> CallGrows(s.calls[k], s'.calls[k]))
    && |s.handlers| <= |s'.handlers| && (forall h :: 0 <= h < |s.handlers| ==> HandlerGrows(s.handlers[h], s'.handlers[h]))
  }

  lemma DeliverGrows(s: State)
    requires s.read <= |s.queued| && Enabled(s, Deliver)
    ensures Grows(s, Apply(s, Deliver))
  {
    var s' := Apply(s, Deliver);
    forall k | 0 <= k < |s.calls| ensures CallGrows(s.calls[k], s'.calls[k]) { }
  }

  lemma NextGrows(s: State, step: Step)
    requires s.read <= |s.queued|
    ensures Grows(s, Next(s, step))
  {
    if Enabled(s, step) && step.Deliver? {
      DeliverGrows(s);
    }
  }

  lemma AnswerStays(s: State, s': State, k: nat, h: nat)
    requires Grows(s, s') && AnsweredBy(s, k, h) && s'.calls[k] == s.calls[k]
    ensures AnsweredBy(s', k, h)
  {
    var at := s.handlers[h].done.value.at;
    assert HandlerGrows(s.handlers[h], s'.handlers[h]);
    assert s'.queued[..at] == s.queued[..at];
  }

  lemma MessageStays(s: State, s': State, i: nat)
    requires Grows(s, s') && i < |s.queued| && MessageOk(s, i)
    ensures MessageOk(s', i)
  {
    if !(s.queued[i].Response? && s.queued[i].id == 0) {
      var h: nat :| SentBy(s, i, h);
      assert HandlerGrows(s.handlers[h], s'.handlers[h]);
      assert SentBy(s', i, h);
    }
  }

  lemma OriginStays(s: State, s': State, id: nat, request: string)
    requires Grows(s, s') && FromCall(s, id, request)
    ensures FromCall(s', id, request)
  {
    var k :| 0 <= k < |s.calls| && s.calls[k].stage == Sent && s.calls[k].id == id && s.calls[k].request == request;
    assert CallGrows(s.calls[k], s'.calls[k]);
  }

  lemma EventsAppend(messages: seq<Message>, m: Message, id: nat)
    ensures Events(messages + [m], id) == Events(messages, id) + if m.Event? && m.id == id then [m.body] else []
  {
    assert (messages + [m])[..|messages|] == messages;
  }

  /** Messages for a call reach the client only after that call was sent. */
  lemma MessageHasSender(s: State, i: nat) returns (k: nat)
    requires Inv(s) && i < |s.queued| && !(s.queued[i].Response? && s.queued[i].id == 0)
    ensures k < |s.calls| && s.calls[k].stage == Sent && s.calls[k].id == s.queued[i].id
  {
    assert MessageOk(s, i);
    var h: nat :| SentBy(s, i, h);
    assert FromCall(s, s.handlers[h].id, s.handlers[h].request);
    k :| 0 <= k < |s.calls| && s.calls[k].stage == Sent && s.calls[k].id == s.handlers[h].id
         && s.calls[k].request == s.handlers[h].request;
  }

  lemma {:induction false} NoEventsUnsent(s: State, n: nat, id: nat)
    requires Inv(s) && n <= |s.queued|
    requires forall k :: 0 <= k < |s.calls| && s.calls[k].stage == Sent ==> s.calls[k].id != id
    ensures Events(s.queued[..n], id) == []
  {
    if n > 0 {
      NoEventsUnsent(s, n - 1, id);
      assert s.queued[..n] == s.queued[..n - 1] + [s.queued[n - 1]];
      EventsAppend(s.queued[..n - 1], s.queued[n - 1], id);
      if s.queued[n - 1].Event? {
        var k := MessageHasSender(s, n - 1);
      }
    }
  }

  lemma IdOwner(s: State, j: nat, k: nat)
    requires DistinctIds(s) && j < |s.calls| && k < |s.calls| && HasId(s.calls[j]) && HasId(s.calls[k])
    requires s.calls[j].id == s.calls[k].id
    ensures j == k
  {
  }
}
