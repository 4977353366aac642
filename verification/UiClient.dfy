/**
 The plugin side of the UI bridge: `createRelaywardUIClient` (`ui/src/index.ts`).

 JavaScript runs one callback at a time, but `transport.send` may run anything: deliver responses, start
 further calls, dispose the client, throw. A call is therefore two events, one up to `send` and one for
 how `send` ended, and anything the transport may run can happen in between. `sending` is the call stack of
 unfinished sends. Timers fire from the event loop only, when that stack is empty.
 */
module UiClient {
  import opened Text
  import opened RequestIds

  // ----- values that cross the bridge -----

  datatype Js =
    | Undefined
    | Null
    | Boolean(truth: bool)
    | Number(number: real)
    | String(text: string)
    | Array(items: seq<Js>)
    | Object(fields: map<string, Js>)
  {
    /** `value.name`. */
    function Get(name: string): Js
      requires Object?
    {
      if name in fields then fields[name] else Undefined
    }
  }

  const API_VERSION := "relayward.plugin-ui/v1"
  const MAXIMUM_JSON := 0x8_0000

  /** `isProblem`. */
  predicate IsProblem(value: Js) {
    && value.Object?
    && value.Get("code").String? && value.Get("message").String? && value.Get("retryable").Boolean?
    && value.Get("code").text in {"invalid_argument", "unauthenticated", "permission_denied", "not_found",
                                  "conflict", "unsupported", "unavailable", "internal"}
  }

  /** `isPluginUIResponse`. */
  predicate IsResponse(value: Js) {
    && value.Object?
    && value.Get("api_version") == String(API_VERSION)
    && value.Get("direction") == String("host-to-plugin")
    && value.Get("id").String? && value.Get("id").text != ""
    && value.Get("ok").Boolean?
    && (if value.Get("ok").truth then value.Get("problem") == Undefined
        else value.Get("result") == Undefined && (value.Get("problem") == Undefined || IsProblem(value.Get("problem"))))
  }

  /** The message a call sends. */
  function RequestMessage(id: string, name: string, payload: Js): Js {
    Object(map["api_version" := String(API_VERSION), "direction" := String("plugin-to-host"),
               "id" := String(id), "method" := String(name), "payload" := payload])
  }

  // ----- promises -----

  datatype Outcome =
    | Resolved(value: Js)
    | HostProblem(problem: Option<Js>)   // None: the client's own internal problem
    | TimedOut
    | SendFailed
    | Disposed
    | BadPayload

  datatype Promise = Pending | Settled(outcome: Outcome) {
    /** `resolve` or `reject`: only the first one counts. */
    function Settle(outcome: Outcome): Promise {
      if Pending? then Settled(outcome) else this
    }
  }

  /** A call, the ID it was sent under and the number in that ID; calls refused at once have none. */
  datatype Call = Call(id: Option<string>, number: nat, promise: Promise)

  datatype State = State(
    sequence: nat,
    disposed: bool,
    pending: map<string, nat>,   // by request ID: the call
    timers: set<nat>,            // calls whose timer is set
    calls: seq<Call>,
    sending: seq<nat>)

  datatype Event =
    | Begin(encoded: Option<nat>, now: int)   // the payload's JSON length, None when it cannot be serialized
    | SendReturned(call: nat)
    | SendThrew(call: nat)
    | Receive(candidate: Js)
    | Expire(call: nat)
    | Dispose

  function ResponseOutcome(response: Js): Outcome
    requires IsResponse(response)
  {
    if response.Get("ok").truth then Resolved(response.Get("result"))
    else HostProblem(if response.Get("problem") == Undefined then None else Some(response.Get("problem")))
  }

  predicate Top(sending: seq<nat>, call: nat) {
    sending != [] && sending[|sending| - 1] == call
  }

  /** What the runtime can do next. */
  predicate Enabled(s: State, e: Event) {
    match e
    case Begin(_, _) => s.sequence < MAX_COUNTER
    case SendReturned(call) => Top(s.sending, call)
    case SendThrew(call) => Top(s.sending, call) && call < |s.calls| && s.calls[call].id.Some?
    case Expire(call) => s.sending == [] && call in s.timers && call < |s.calls| && s.calls[call].id.Some?
    case Receive(_) => true
    case Dispose => true
  }

  function SettleCalls(calls: seq<Call>, which: set<nat>, outcome: Outcome): (settled: seq<Call>)
    ensures |settled| == |calls|
  {
    seq(|calls|, i requires 0 <= i < |calls| =>
      if i in which then calls[i].(promise := calls[i].promise.Settle(outcome)) else calls[i])
  }

  function Finish(s: State, id: string, call: nat, outcome: Outcome): State {
    s.(pending := s.pending - {id}, timers := s.timers - {call}, calls := SettleCalls(s.calls, {call}, outcome))
  }

  function Step(s: State, e: Event): State
    requires Enabled(s, e)
  {
    match e
    case Begin(encoded, now) =>
      if s.disposed then s.(calls := s.calls + [Call(None, 0, Settled(Disposed))])
      else if encoded == None || encoded.value > MAXIMUM_JSON then s.(calls := s.calls + [Call(None, 0, Settled(BadPayload))])
      else
        var number := s.sequence + 1;
        var id, call := RequestId(now, number), |s.calls|;
        s.(sequence := number, pending := s.pending[id := call], timers := s.timers + {call},
           calls := s.calls + [Call(Some(id), number, Pending)], sending := s.sending + [call])
    case SendReturned(_) =>
      s.(sending := s.sending[..|s.sending| - 1])
    case SendThrew(call) =>
      Finish(s.(sending := s.sending[..|s.sending| - 1]), s.calls[call].id.value, call, SendFailed)
    case Receive(candidate) =>
      if !IsResponse(candidate) || candidate.Get("id").text !in s.pending then s
      else Finish(s, candidate.Get("id").text, s.pending[candidate.Get("id").text], ResponseOutcome(candidate))
    case Expire(call) =>
      Finish(s, s.calls[call].id.value, call, TimedOut)
    case Dispose =>
      if s.disposed then s
      else s.(disposed := true, pending := map[], timers := s.timers - s.pending.Values,
              calls := SettleCalls(s.calls, s.pending.Values, Disposed))
  }

  const INITIAL := State(0, false, map[], {}, [], [])

  // ----- the client -----

  class Client {
    var sequence: nat
    var disposed: bool
    var pending: map<string, nat>
    var timers: set<nat>
    var calls: seq<Call>
    ghost var sending: seq<nat>

    ghost function Now(): State
      reads this
    {
      State(sequence, disposed, pending, timers, calls, sending)
    }

    constructor ()
      ensures Now() == INITIAL
    {
      sequence, disposed, pending, timers, calls := 0, false, map[], {}, [];
      sending := [];
    }

    method Settle(call: nat, outcome: Outcome)
      requires call < |calls|
      modifies this`calls
      ensures calls == SettleCalls(old(calls), {call}, outcome)
    {
      calls := calls[call := calls[call].(promise := calls[call].promise.Settle(outcome))];
    }

    /** `call`, up to and including the invocation of `transport.send`. */
    method BeginCall(encoded: Option<nat>, now: int)
      requires sequence < MAX_COUNTER
      modifies this
      ensures Now() == Step(old(Now()), Begin(encoded, now))
    {
      if disposed {
        calls := calls + [Call(None, 0, Settled(Disposed))];
        return;
      }
      if encoded == None || encoded.value > MAXIMUM_JSON {
        calls := calls + [Call(None, 0, Settled(BadPayload))];
        return;
      }
      sequence := sequence + 1;
      var id := RequestId(now, sequence);
      var call := |calls|;
      calls := calls + [Call(Some(id), sequence, Pending)];
      timers := timers + {call};
      pending := pending[id := call];
      sending := sending + [call];
    }

    /** `transport.send` returned. */
    method SendReturns(call: nat)
      requires Enabled(Now(), SendReturned(call))
      modifies this
      ensures Now() == Step(old(Now()), SendReturned(call))
    {
      sending := sending[..|sending| - 1];
    }

    /** `transport.send` threw: the `catch` block. */
    method SendThrows(call: nat)
      requires Enabled(Now(), SendThrew(call))
      modifies this
      ensures Now() == Step(old(Now()), SendThrew(call))
    {
      sending := sending[..|sending| - 1];
      timers := timers - {call};
      pending := pending - {calls[call].id.value};
      Settle(call, SendFailed);
    }

    /** The transport's listener. */
    method ReceiveMessage(candidate: Js)
      requires forall id :: id in pending ==> pending[id] < |calls|
      modifies this
      ensures Now() == Step(old(Now()), Receive(candidate))
    {
      if !IsResponse(candidate) {
        return;
      }
      var id := candidate.Get("id").text;
      if id !in pending {
        return;
      }
      var call := pending[id];
      pending := pending - {id};
      timers := timers - {call};
      Settle(call, ResponseOutcome(candidate));
    }

    /** The timeout callback. */
    method TimerFires(call: nat)
      requires Enabled(Now(), Expire(call))
      modifies this
      ensures Now() == Step(old(Now()), Expire(call))
    {
      timers := timers - {call};
      pending := pending - {calls[call].id.value};
      Settle(call, TimedOut);
    }

    /** `dispose`. */
    method DisposeClient()
      requires forall id :: id in pending ==> pending[id] < |calls|
      modifies this
      ensures Now() == Step(old(Now()), Dispose)
    {
      if disposed {
        return;
      }
      disposed := true;
      var rest, done := pending.Keys, {};
      while rest != {}
        invariant rest <= pending.Keys && pending == old(pending) && |calls| == |old(calls)|
        invariant done == set id | id in pending && id !in rest :: pending[id]
        invariant timers == old(timers) - done
        invariant calls == SettleCalls(old(calls), done, Disposed)
        invariant disposed && sequence == old(sequence) && sending == old(sending)
        decreases rest
      {
        var id :| id in rest;
        var call := pending[id];
        timers := timers - {call};
        Settle(call, Disposed);
        rest, done := rest - {id}, done + {call};
      }
      assert done == pending.Values;
      pending := map[];
    }
  }
}
