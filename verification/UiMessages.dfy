/** What each message and each event does to a promise, told by the fields of the message (`ui/src/index.ts`). */
module UiMessages {
  import opened Text
  import opened RequestIds
  import opened UiClient
  import opened UiTheorems

  // ----- messages by their fields -----

  type Fields = map<string, Js>

  /** `message[name] === undefined`. */
  predicate Absent(fields: Fields, name: string) {
    name !in fields || fields[name] == Undefined
  }

  predicate Has(fields: Fields, name: string, value: Js) {
    name in fields && fields[name] == value
  }

  /** A bridge message from the host to the call sent under `id`. */
  predicate Addressed(fields: Fields, id: string) {
    && Has(fields, "api_version", String("relayward.plugin-ui/v1")) && Has(fields, "direction", String("host-to-plugin"))
    && Has(fields, "id", String(id)) && id != ""
  }

  /** A success whose result is `value`; a missing result is `undefined`. */
  predicate Succeeds(fields: Fields, id: string, value: Js) {
    && Addressed(fields, id) && Has(fields, "ok", Boolean(true)) && Absent(fields, "problem")
    && value == if "result" in fields then fields["result"] else Undefined
  }

  predicate WellFormedProblem(problem: Js) {
    && problem.Object? && "code" in problem.fields && "message" in problem.fields && "retryable" in problem.fields
    && problem.fields["code"].String? && problem.fields["message"].String? && problem.fields["retryable"].Boolean?
    && problem.fields["code"].text in ["invalid_argument", "unauthenticated", "permission_denied", "not_found",
                                       "conflict", "unsupported", "unavailable", "internal"]
  }

  /** A failure with this problem, or without one. */
  predicate Fails(fields: Fields, id: string, problem: Option<Js>) {
    && Addressed(fields, id) && Has(fields, "ok", Boolean(false)) && Absent(fields, "result")
    && (if Absent(fields, "problem") then problem == None
        else problem == Some(fields["problem"]) && WellFormedProblem(fields["problem"]))
  }

  lemma SuccessIsResponse(fields: Fields, id: string, value: Js)
    requires Succeeds(fields, id, value)
    ensures IsResponse(Object(fields)) && Object(fields).Get("id") == String(id)
    ensures ResponseOutcome(Object(fields)) == Resolved(value)
  {
  }

  lemma FailureIsResponse(fields: Fields, id: string, problem: Option<Js>)
    requires Fails(fields, id, problem)
    ensures IsResponse(Object(fields)) && Object(fields).Get("id") == String(id)
    ensures ResponseOutcome(Object(fields)) == HostProblem(problem)
  {
  }

  lemma ResponseIsEither(message: Js) returns (id: string)
    requires IsResponse(message)
    ensures message.Object?
    ensures || (exists value :: Succeeds(message.fields, id, value))
            || (exists problem :: Fails(message.fields, id, problem))
  {
    var fields := message.fields;
    id := message.Get("id").text;
    if message.Get("ok").truth {
      assert Succeeds(fields, id, if "result" in fields then fields["result"] else Undefined);
    } else if Absent(fields, "problem") {
      assert Fails(fields, id, None);
    } else {
      assert WellFormedProblem(fields["problem"]);
      assert Fails(fields, id, Some(fields["problem"]));
    }
  }

  // ----- one message -----

  /** A success resolves the waiting call it is addressed to with its result. */
  lemma SuccessResolves(s: State, fields: Fields, call: nat, value: Js)
    requires Inv(s) && Waiting(s.calls, call) && Succeeds(fields, s.calls[call].id.value, value)
    ensures Step(s, Receive(Object(fields))).calls[call].promise == Settled(Resolved(value))
  {
    SuccessIsResponse(fields, s.calls[call].id.value, value);
    hide Succeeds, IsResponse, ResponseOutcome;
    StepAnswers(s, Receive(Object(fields)), call);
  }

  /** A failure rejects it with the host's problem, or with the client's own when there is none. */
  lemma FailureRejects(s: State, fields: Fields, call: nat, problem: Option<Js>)
    requires Inv(s) && Waiting(s.calls, call) && Fails(fields, s.calls[call].id.value, problem)
    ensures Step(s, Receive(Object(fields))).calls[call].promise == Settled(HostProblem(problem))
  {
    FailureIsResponse(fields, s.calls[call].id.value, problem);
    hide Fails, IsResponse, ResponseOutcome;
    StepAnswers(s, Receive(Object(fields)), call);
  }

  /** Anything else, or a message for no pending call, changes nothing. */
  lemma OthersAreIgnored(s: State, message: Js)
    requires message.Object? ==>
               && (forall id, value :: Succeeds(message.fields, id, value) ==> id !in s.pending)
               && (forall id, problem :: Fails(message.fields, id, problem) ==> id !in s.pending)
    ensures Step(s, Receive(message)) == s
  {
    if IsResponse(message) {
      var id := ResponseIsEither(message);
      if value :| Succeeds(message.fields, id, value) {
        SuccessIsResponse(message.fields, id, value);
      } else {
        var problem :| Fails(message.fields, id, problem);
        FailureIsResponse(message.fields, id, problem);
      }
    }
  }

  // ----- whole runs -----

  lemma {:induction false} RunConcat(s: State, first: seq<Event>, second: seq<Event>)
    requires Legal(s, first + second)
    ensures Legal(s, first) && Legal(Run(s, first), second) && Run(s, first + second) == Run(Run(s, first), second)
    decreases |first|
  {
    if first == [] {
      assert first + second == second;
    } else {
      assert (first + second)[0] == first[0] && (first + second)[1..] == first[1..] + second;
      RunConcat(Step(s, first[0]), first[1..], second);
    }
  }

  /** Whatever settles a call still waiting after `before` stays its outcome to the end. */
  lemma FirstOutcomeStays(s: State, before: seq<Event>, event: Event, after: seq<Event>, call: nat, promise: Promise)
    requires Inv(s) && Legal(s, before + [event] + after)
    requires Legal(s, before) && Waiting(Run(s, before).calls, call)
    requires Enabled(Run(s, before), event)
    requires call < |Step(Run(s, before), event).calls|
    requires Step(Run(s, before), event).calls[call].promise == promise && promise.Settled?
    ensures call < |Run(s, before + [event] + after).calls|
    ensures Run(s, before + [event] + after).calls[call].promise == promise
  {
    hide Inv, Step, Enabled;
    RunConcat(s, before + [event], after);
    RunConcat(s, before, [event]);
    RunKeepsInv(s, before + [event]);
    assert [event][1..] == [];
    assert Run(Run(s, before), [event]) == Step(Run(s, before), event);
    SettledForGood(Run(s, before + [event]), after, call);
  }

  /** In any run a call whose first answer is a success ends up resolved with its result. */
  lemma SuccessIsFinal(s: State, before: seq<Event>, fields: Fields, after: seq<Event>, call: nat, value: Js)
    requires Inv(s) && Legal(s, before + [Receive(Object(fields))] + after)
    requires Legal(s, before) && Waiting(Run(s, before).calls, call) && Inv(Run(s, before))
    requires Succeeds(fields, Run(s, before).calls[call].id.value, value)
    ensures var last := Run(s, before + [Receive(Object(fields))] + after);
            call < |last.calls| && last.calls[call].promise == Settled(Resolved(value))
  {
    hide Inv, Step, Succeeds, Run;
    SuccessResolves(Run(s, before), fields, call, value);
    StepKeepsCalls(Run(s, before), Receive(Object(fields)), call);
    FirstOutcomeStays(s, before, Receive(Object(fields)), after, call, Settled(Resolved(value)));
  }

  /** And one whose first answer is a failure ends up rejected with its problem. */
  lemma FailureIsFinal(s: State, before: seq<Event>, fields: Fields, after: seq<Event>, call: nat, problem: Option<Js>)
    requires Inv(s) && Legal(s, before + [Receive(Object(fields))] + after)
    requires Legal(s, before) && Waiting(Run(s, before).calls, call) && Inv(Run(s, before))
    requires Fails(fields, Run(s, before).calls[call].id.value, problem)
    ensures var last := Run(s, before + [Receive(Object(fields))] + after);
            call < |last.calls| && last.calls[call].promise == Settled(HostProblem(problem))
  {
    hide Inv, Step, Fails, Run;
    FailureRejects(Run(s, before), fields, call, problem);
    StepKeepsCalls(Run(s, before), Receive(Object(fields)), call);
    FirstOutcomeStays(s, before, Receive(Object(fields)), after, call, Settled(HostProblem(problem)));
  }

  // ----- the other events -----

  /** A throwing `send` rejects its own call, if a response has not settled it already, and no other. */
  lemma SendFailureRejects(s: State, call: nat, other: nat)
    requires Inv(s) && Enabled(s, SendThrew(call)) && other < |s.calls|
    ensures Step(s, SendThrew(call)).calls[other].promise
         == if other == call && Waiting(s.calls, call) then Settled(SendFailed) else s.calls[other].promise
  {
  }

  /** What a new call becomes: refused when disposed or when its payload is not JSON of at most 512 KiB, else waiting. */
  lemma BeginDecides(s: State, encoded: Option<nat>, now: int)
    requires Inv(s) && Enabled(s, Begin(encoded, now))
    ensures var next := Step(s, Begin(encoded, now));
            && |next.calls| == |s.calls| + 1
            && next.calls[|s.calls|].promise ==
                 (if s.disposed then Settled(Disposed)
                  else if encoded.Some? && encoded.value <= 512 * 1024 then Pending
                  else Settled(BadPayload))
            && (next.calls[|s.calls|].promise == Pending <==> |s.calls| in next.timers)
            && (next.calls[|s.calls|].promise == Pending ==>
                  next.calls[|s.calls|].id == Some(RequestId(now, s.sequence + 1)) && next.sequence == s.sequence + 1)
            && next.calls[..|s.calls|] == s.calls
  {
    assert !Waiting(s.calls, |s.calls|);
  }
}
