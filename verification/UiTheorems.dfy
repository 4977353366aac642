/** What the UI bridge client promises over every interleaving (`ui/src/index.ts`). */
module UiTheorems {
  import opened Text
  import opened RequestIds
  import opened UiClient

  // ----- runs -----

  ghost predicate Legal(s: State, events: seq<Event>)
    decreases |events|
  {
    events == [] || (Enabled(s, events[0]) && Legal(Step(s, events[0]), events[1..]))
  }

  ghost function Run(s: State, events: seq<Event>): State
    requires Legal(s, events)
    decreases |events|
  {
    if events == [] then s else Run(Step(s, events[0]), events[1..])
  }

  // ----- the invariant -----

  predicate Waiting(calls: seq<Call>, call: nat) {
    call < |calls| && calls[call].promise.Pending?
  }

  ghost predicate Sent(call: Call, sequence: nat) {
    call.id.Some? && 1 <= call.number <= sequence && exists now :: call.id.value == RequestId(now, call.number)
  }

  /** Calls that were sent carry the number in their ID, and numbers only grow. */
  ghost predicate Numbered(calls: seq<Call>, sequence: nat) {
    && (forall n :: 0 <= n < |calls| && calls[n].id.Some? ==> Sent(calls[n], sequence))
    && (forall m, n :: 0 <= m < n < |calls| && calls[m].id.Some? && calls[n].id.Some? ==> calls[m].number < calls[n].number)
  }

  ghost predicate TimersAreWaiting(calls: seq<Call>, timers: set<nat>) {
    forall n: nat :: n in timers <==> Waiting(calls, n)
  }

  ghost predicate PendingAreWaiting(calls: seq<Call>, pending: map<string, nat>) {
    forall id :: id in pending ==> Waiting(calls, pending[id]) && calls[pending[id]].id == Some(id)
  }

  ghost predicate WaitingArePending(calls: seq<Call>, pending: map<string, nat>) {
    forall n: nat :: Waiting(calls, n) ==> calls[n].id.Some? && calls[n].id.value in pending && pending[calls[n].id.value] == n
  }

  ghost predicate SendingAreSent(calls: seq<Call>, sending: seq<nat>) {
    forall n :: n in sending ==> n < |calls| && calls[n].id.Some?
  }

  /** Unsettled calls, live timers and pending requests are the same set. */
  ghost predicate Inv(s: State) {
    && Numbered(s.calls, s.sequence)
    && TimersAreWaiting(s.calls, s.timers)
    && PendingAreWaiting(s.calls, s.pending)
    && WaitingArePending(s.calls, s.pending)
    && SendingAreSent(s.calls, s.sending)
    && (s.disposed ==> s.pending == map[])
  }

  /** A call that is not yet numbered cannot share an ID with one that is. */
  lemma FreshId(call: Call, sequence: nat, now: int, number: nat)
    requires Sent(call, sequence) && number != call.number
    ensures call.id.value != RequestId(now, number)
  {
    var t :| call.id.value == RequestId(t, call.number);
    if call.id.value == RequestId(now, number) {
      RequestIdDeterminesSequence(t, call.number, now, number);
    }
  }

  /** Two calls never share an ID. */
  lemma IdsDistinct(calls: seq<Call>, sequence: nat, m: nat, n: nat)
    requires Numbered(calls, sequence) && m < |calls| && n < |calls| && calls[m].id.Some? && calls[m].id == calls[n].id
    ensures m == n
  {
    assert Sent(calls[m], sequence) && Sent(calls[n], sequence);
    var t :| calls[n].id.value == RequestId(t, calls[n].number);
    if m != n { FreshId(calls[m], sequence, t, calls[n].number); }
  }

  lemma RefusedKeepsInv(s: State, call: Call)
    requires Inv(s) && call.id == None && call.promise.Settled?
    ensures Inv(s.(calls := s.calls + [call]))
  {
    var calls := s.calls + [call];
    assert forall n: nat :: Waiting(calls, n) <==> Waiting(s.calls, n);
    assert forall n :: 0 <= n < |s.calls| ==> calls[n] == s.calls[n];
  }

  lemma NumberedGrows(calls: seq<Call>, sequence: nat, call: Call, now: int)
    requires Numbered(calls, sequence) && call == Call(Some(RequestId(now, sequence + 1)), sequence + 1, Pending)
    ensures Numbered(calls + [call], sequence + 1)
  {
    var grown := calls + [call];
    forall n | 0 <= n < |grown| && grown[n].id.Some?
      ensures Sent(grown[n], sequence + 1)
    {
      if n < |calls| { assert Sent(calls[n], sequence); }
    }
    forall m, n | 0 <= m < n < |grown| && grown[m].id.Some? && grown[n].id.Some?
      ensures grown[m].number < grown[n].number
    {
      assert Sent(calls[m], sequence);
    }
  }

  lemma SentKeepsInv(s: State, now: int)
    requires Inv(s) && !s.disposed
    ensures var number := s.sequence + 1;
            var id, call := RequestId(now, number), |s.calls|;
            Inv(s.(sequence := number, pending := s.pending[id := call], timers := s.timers + {call},
                   calls := s.calls + [Call(Some(id), number, Pending)], sending := s.sending + [call]))
  {
    var number := s.sequence + 1;
    var id := RequestId(now, number);
    var calls := s.calls + [Call(Some(id), number, Pending)];
    var pending := s.pending[id := |s.calls|];
    NumberedGrows(s.calls, s.sequence, calls[|s.calls|], now);
    assert forall n :: 0 <= n < |s.calls| ==> calls[n] == s.calls[n];
    assert forall n: nat :: Waiting(calls, n) <==> Waiting(s.calls, n) || n == |s.calls|;
    forall n: nat | n < |s.calls| && s.calls[n].id.Some?
      ensures s.calls[n].id.value != id
    {
      FreshId(s.calls[n], s.sequence, now, number);
    }
    assert PendingAreWaiting(calls, pending);
    assert WaitingArePending(calls, pending);
    assert SendingAreSent(calls, s.sending + [|s.calls|]);
  }

  /** Settling leaves identities alone and takes exactly the settled calls out of the waiting ones. */
  lemma SettledCalls(calls: seq<Call>, sequence: nat, which: set<nat>, outcome: Outcome) returns (settled: seq<Call>)
    requires Numbered(calls, sequence)
    ensures settled == SettleCalls(calls, which, outcome) && Numbered(settled, sequence)
    ensures forall n :: 0 <= n < |calls| ==> settled[n].id == calls[n].id
    ensures forall n: nat :: Waiting(settled, n) <==> Waiting(calls, n) && n !in which
  {
    settled := SettleCalls(calls, which, outcome);
    assert forall n :: 0 <= n < |calls| ==> settled[n].id == calls[n].id && settled[n].number == calls[n].number;
    forall n | 0 <= n < |calls| && settled[n].id.Some?
      ensures Sent(settled[n], sequence)
    {
      assert Sent(calls[n], sequence);
    }
  }

  lemma RemovedFromPending(s: State, id: string, call: nat, calls: seq<Call>)
    requires Inv(s) && call < |s.calls| && s.calls[call].id == Some(id)
    requires |calls| == |s.calls| && forall n :: 0 <= n < |calls| ==> calls[n].id == s.calls[n].id
    requires forall n: nat :: Waiting(calls, n) <==> Waiting(s.calls, n) && n != call
    ensures PendingAreWaiting(calls, s.pending - {id}) && WaitingArePending(calls, s.pending - {id})
  {
    forall n: nat | Waiting(calls, n)
      ensures s.calls[n].id != Some(id)
    {
      if s.calls[n].id == Some(id) { IdsDistinct(s.calls, s.sequence, n, call); }
    }
    forall other | other in s.pending && other != id
      ensures s.pending[other] != call
    {
      assert s.calls[s.pending[other]].id == Some(other);
    }
  }

  /** Settling the call behind an ID, whether or not it still waits. */
  lemma FinishKeepsInv(s: State, id: string, call: nat, outcome: Outcome)
    requires Inv(s) && call < |s.calls| && s.calls[call].id == Some(id)
    ensures Inv(Finish(s, id, call, outcome))
  {
    var calls := SettledCalls(s.calls, s.sequence, {call}, outcome);
    RemovedFromPending(s, id, call, calls);
  }

  lemma TimersArePending(s: State)
    requires Inv(s)
    ensures s.timers == s.pending.Values
  {
    forall n | n in s.timers
      ensures n in s.pending.Values
    {
      assert Waiting(s.calls, n) && s.pending[s.calls[n].id.value] == n;
    }
  }

  lemma DisposeKeepsInv(s: State)
    requires Inv(s) && !s.disposed
    ensures Inv(Step(s, Dispose)) && Step(s, Dispose).timers == {}
  {
    TimersArePending(s);
    var calls := SettledCalls(s.calls, s.sequence, s.timers, Disposed);
    assert forall n: nat :: !Waiting(calls, n);
  }

  lemma BeginKeepsInv(s: State, encoded: Option<nat>, now: int)
    requires Inv(s) && Enabled(s, Begin(encoded, now))
    ensures Inv(Step(s, Begin(encoded, now)))
  {
    if s.disposed {
      RefusedKeepsInv(s, Call(None, 0, Settled(Disposed)));
    } else if encoded == None || encoded.value > MAXIMUM_JSON {
      RefusedKeepsInv(s, Call(None, 0, Settled(BadPayload)));
    } else {
      SentKeepsInv(s, now);
    }
  }

  lemma StepKeepsInv(s: State, e: Event)
    requires Inv(s) && Enabled(s, e)
    ensures Inv(Step(s, e))
  {
    match e
    case Begin(encoded, now) =>
      BeginKeepsInv(s, encoded, now);
    case SendReturned(_) =>
    case SendThrew(call) =>
      FinishKeepsInv(s.(sending := s.sending[..|s.sending| - 1]), s.calls[call].id.value, call, SendFailed);
    case Receive(candidate) =>
      if IsResponse(candidate) && candidate.Get("id").text in s.pending {
        FinishKeepsInv(s, candidate.Get("id").text, s.pending[candidate.Get("id").text], ResponseOutcome(candidate));
      }
    case Expire(call) =>
      FinishKeepsInv(s, s.calls[call].id.value, call, TimedOut);
    case Dispose =>
      if !s.disposed { DisposeKeepsInv(s); }
  }

  /** Every state a client can reach: pending keys, live timers and unsettled calls are the same set. */
  lemma {:induction false} RunKeepsInv(s: State, events: seq<Event>)
    requires Inv(s) && Legal(s, events)
    ensures Inv(Run(s, events))
    decreases |events|
  {
    if events != [] {
      StepKeepsInv(s, events[0]);
      RunKeepsInv(Step(s, events[0]), events[1..]);
    }
  }

  lemma ReachableInv(events: seq<Event>)
    requires Legal(INITIAL, events)
    ensures var s := Run(INITIAL, events);
            && Inv(s)
            && s.timers == (set n | 0 <= n < |s.calls| && Waiting(s.calls, n))
            && s.timers == s.pending.Values && |s.pending| == |s.timers|
  {
    RunKeepsInv(INITIAL, events);
    var s := Run(INITIAL, events);
    TimersArePending(s);
    PendingInjective(s.pending, s.calls);
  }

  lemma {:induction false} PendingInjective(pending: map<string, nat>, calls: seq<Call>)
    requires forall id :: id in pending ==> pending[id] < |calls| && calls[pending[id]].id == Some(id)
    ensures |pending| == |pending.Values|
    decreases |pending|
  {
    if pending != map[] {
      var id :| id in pending;
      var rest := pending - {id};
      PendingInjective(rest, calls);
      assert pending.Values == rest.Values + {pending[id]};
      assert |pending| == |rest| + 1;
    }
  }

  // ----- who settles a call -----

  /** The outcome an event has for a call sent under `id`, if the event is addressed to it. */
  function Answer(e: Event, call: nat, id: string): Option<Outcome> {
    match e
    case Receive(candidate) =>
      if IsResponse(candidate) && candidate.Get("id").text == id then Some(ResponseOutcome(candidate)) else None
    case Expire(other) => if other == call then Some(TimedOut) else None
    case SendThrew(other) => if other == call then Some(SendFailed) else None
    case Dispose => Some(Disposed)
    case Begin(_, _) => None
    case SendReturned(_) => None
  }

  /** The first answer among the events. */
  function FirstAnswer(events: seq<Event>, call: nat, id: string): Promise {
    if events == [] then Pending
    else if Answer(events[0], call, id).Some? then Settled(Answer(events[0], call, id).value)
    else FirstAnswer(events[1..], call, id)
  }

  /** A step changes nothing about a call except settling it, and only a waiting one. */
  lemma StepKeepsCalls(s: State, e: Event, call: nat)
    requires Inv(s) && Enabled(s, e) && call < |s.calls|
    ensures var next := Step(s, e);
            && call < |next.calls| && next.calls[call].id == s.calls[call].id
            && (!Waiting(s.calls, call) ==> next.calls[call] == s.calls[call])
  {
  }

  /** A waiting call is settled by an event addressed to it, with that event's outcome, and by no other event. */
  lemma StepAnswers(s: State, e: Event, call: nat)
    requires Inv(s) && Enabled(s, e) && Waiting(s.calls, call)
    ensures var answer := Answer(e, call, s.calls[call].id.value);
            Step(s, e).calls[call].promise == if answer.Some? then Settled(answer.value) else Pending
  {
    var id := s.calls[call].id.value;
    assert s.pending[id] == call;
    if e.Receive? && IsResponse(e.candidate) && e.candidate.Get("id").text in s.pending {
      assert s.calls[s.pending[e.candidate.Get("id").text]].id == Some(e.candidate.Get("id").text);
    }
  }

  /** A request echoed by the host settles nothing, not even the call it was sent for. */
  lemma EchoIsIgnored(s: State, id: string, name: string, payload: Js)
    ensures Step(s, Receive(RequestMessage(id, name, payload))) == s
  {
    assert RequestMessage(id, name, payload).Get("direction") == String("plugin-to-host");
  }

  /** Once settled, a promise never changes. */
  lemma {:induction false} SettledForGood(s: State, events: seq<Event>, call: nat)
    requires Inv(s) && Legal(s, events) && call < |s.calls| && !Waiting(s.calls, call)
    ensures call < |Run(s, events).calls| && Run(s, events).calls[call] == s.calls[call]
    decreases |events|
  {
    if events != [] {
      StepKeepsInv(s, events[0]);
      StepKeepsCalls(s, events[0], call);
      SettledForGood(Step(s, events[0]), events[1..], call);
    }
  }

  /** Over any further run a waiting call ends up with its first answer: never a later one, never another call's. */
  lemma {:induction false} FirstAnswerSettles(s: State, events: seq<Event>, call: nat)
    requires Inv(s) && Legal(s, events) && Waiting(s.calls, call)
    ensures call < |Run(s, events).calls|
    ensures Run(s, events).calls[call].promise == FirstAnswer(events, call, s.calls[call].id.value)
    decreases |events|
  {
    if events != [] {
      var next := Step(s, events[0]);
      StepKeepsInv(s, events[0]);
      StepKeepsCalls(s, events[0], call);
      StepAnswers(s, events[0], call);
      if Waiting(next.calls, call) {
        FirstAnswerSettles(next, events[1..], call);
      } else {
        SettledForGood(next, events[1..], call);
      }
    }
  }

  // ----- nothing hangs, nothing survives dispose -----

  /** Whenever the event loop runs, a waiting call's timer can fire, and firing it settles the call. */
  lemma WaitingCallCanExpire(events: seq<Event>, call: nat)
    requires Legal(INITIAL, events)
    requires var s := Run(INITIAL, events); s.sending == [] && Waiting(s.calls, call)
    ensures var s := Run(INITIAL, events);
            Enabled(s, Expire(call)) && Step(s, Expire(call)).calls[call].promise == Settled(TimedOut)
  {
    RunKeepsInv(INITIAL, events);
  }

  /** After dispose nothing is pending, no timer is left, every call is settled, and later ones are refused. */
  lemma {:induction false} NothingAfterDispose(s: State, events: seq<Event>)
    requires Inv(s) && s.disposed && Legal(s, events)
    ensures var last := Run(s, events);
            && last.disposed && last.pending == map[] && last.timers == {} && |s.calls| <= |last.calls|
            && (forall n: nat :: !Waiting(last.calls, n))
            && (forall n :: |s.calls| <= n < |last.calls| ==> last.calls[n] == Call(None, 0, Settled(Disposed)))
    decreases |events|
  {
    forall n: nat
      ensures !Waiting(s.calls, n) && n !in s.timers
    {
    }
    if events != [] {
      var next := Step(s, events[0]);
      StepKeepsInv(s, events[0]);
      NothingAfterDispose(next, events[1..]);
      if |s.calls| < |next.calls| {
        SettledForGood(next, events[1..], |s.calls|);
      }
    }
  }

  lemma DisposeSettlesEverything(s: State)
    requires Inv(s)
    ensures var next := Step(s, Dispose);
            && next.disposed && next.pending == map[] && next.timers == {}
            && (forall n: nat | Waiting(s.calls, n) :: next.calls[n].promise == Settled(Disposed))
  {
    StepKeepsInv(s, Dispose);
    forall n: nat | Waiting(s.calls, n)
      ensures Step(s, Dispose).calls[n].promise == Settled(Disposed)
    {
      StepAnswers(s, Dispose, n);
    }
    NothingAfterDispose(Step(s, Dispose), []);
  }
}
