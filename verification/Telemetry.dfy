/** Telemetry pages between Agent and node plugin: `nodeplugin/v1/validate.go`. */
module Telemetry {
  import opened Text
  import opened Regex
  import opened Patterns
  import opened Sorting
  import opened Keys
  import opened Words

  const MAXIMUM_EVENTS := 500
  const MAXIMUM_COUNTERS := 4096

  datatype Counter = Counter(authorizationId: string, serviceId: string, epoch: string)

  /** `body` stands for the access fields, which the Agent's own validator judges. */
  datatype AccessEvent = AccessEvent(sequence: Word, observedAt: int, body: string)

  datatype Request = Request(afterSequence: Word, maximumEvents: nat)

  /** List elements are pointers and may be missing. */
  datatype Response = Response(observedAt: int, counters: seq<Option<Counter>>, events: seq<Option<AccessEvent>>,
                               nextSequence: Word, hasMore: bool)

  predicate ValidRequest(request: Option<Request>) {
    request.Some? && request.value.afterSequence <= MAXIMUM_INT64 && 1 <= request.value.maximumEvents <= MAXIMUM_EVENTS
  }

  predicate ValidCounter(counter: Option<Counter>) {
    && counter.Some? && Matches(Uuid(), counter.value.authorizationId)
    && Matches(ComponentId(), counter.value.serviceId) && Matches(ComponentId(), counter.value.epoch)
  }

  function CounterPair(counter: Option<Counter>): Pair {
    if counter == None then ("", "") else (counter.value.authorizationId, counter.value.serviceId)
  }

  /** By authorization, then by service. */
  predicate LessCounter(a: Option<Counter>, b: Option<Counter>) {
    LessPair(CounterPair(a), CounterPair(b))
  }

  /** The key the loop compares. */
  function CounterKey(counter: Option<Counter>): string {
    if counter == None then "" else counter.value.authorizationId + "\0" + counter.value.serviceId
  }

  /** `validateAccessEvent`, with the Agent's validator as `standard`. */
  predicate ValidEvent(standard: string -> bool, event: Option<AccessEvent>) {
    && event.Some? && 0 < event.value.sequence <= MAXIMUM_INT64
    && standard(event.value.body) && event.value.observedAt > 0
  }

  predicate AllCountersValid(counters: seq<Option<Counter>>) {
    forall counter :: counter in counters ==> ValidCounter(counter)
  }

  /** The events continue the cursor without a gap, in plain arithmetic. */
  predicate Continues(standard: string -> bool, events: seq<Option<AccessEvent>>, cursor: nat) {
    forall i :: 0 <= i < |events| ==> ValidEvent(standard, events[i]) && events[i].value.sequence == cursor + 1 + i
  }

  /** What `ValidateCollectTelemetryResponse` accepts. */
  ghost predicate AcceptedPage(standard: string -> bool, request: Option<Request>, response: Option<Response>) {
    && ValidRequest(request) && response.Some?
    && response.value.observedAt > 0
    && |response.value.counters| <= MAXIMUM_COUNTERS && AllCountersValid(response.value.counters)
    && StrictlySorted(response.value.counters, LessCounter)
    && |response.value.events| <= request.value.maximumEvents
    && Continues(standard, response.value.events, request.value.afterSequence)
    && response.value.nextSequence == request.value.afterSequence + |response.value.events|
    && (response.value.hasMore ==> |response.value.events| == request.value.maximumEvents)
  }

  lemma CountersSorted(counters: seq<Option<Counter>>)
    ensures StrictlySorted(counters, LessCounter) <==> forall k :: 0 < k < |counters| ==> LessCounter(counters[k - 1], counters[k])
  {
    PairsOrdered();
    assert forall a: Option<Counter>, b: Option<Counter> :: LessCounter(a, b) <==> LessPair(CounterPair(a), CounterPair(b));
    NeighboursSort(counters, LessCounter);
  }

  /** Neighbouring valid counters compare by their joined keys as by authorization and service. */
  lemma CounterKeyOrder(counters: seq<Option<Counter>>, index: nat)
    requires 0 < index < |counters| && AllCountersValid(counters[..index + 1])
    ensures Less(CounterKey(counters[index - 1]), CounterKey(counters[index]))
       <==> LessCounter(counters[index - 1], counters[index])
  {
    var a, b := counters[index - 1], counters[index];
    assert a == counters[..index + 1][index - 1] && b == counters[..index + 1][index];
    NoNulInCounters(counters[..index + 1], a);
    NoNulInCounters(counters[..index + 1], b);
    PairKeyOrder(CounterPair(a), CounterPair(b));
    assert CounterKey(a) == PairKey(CounterPair(a)) && CounterKey(b) == PairKey(CounterPair(b));
  }

  /** Accepted counters ascend by authorization and, under one authorization, by service. */
  lemma AcceptedCountersAscend(standard: string -> bool, request: Option<Request>, response: Option<Response>, i: nat, j: nat)
    requires AcceptedPage(standard, request, response) && i < j < |response.value.counters|
    ensures var first, second := response.value.counters[i], response.value.counters[j];
            && first.Some? && second.Some?
            && (Less(first.value.authorizationId, second.value.authorizationId)
                || (first.value.authorizationId == second.value.authorizationId && Less(first.value.serviceId, second.value.serviceId)))
  {
    hide Matches, Less, Continues;
    var first, second := response.value.counters[i], response.value.counters[j];
    assert LessCounter(first, second) && ValidCounter(first) && ValidCounter(second);
  }

  lemma NoNulInCounters(counters: seq<Option<Counter>>, counter: Option<Counter>)
    requires AllCountersValid(counters) && counter in counters
    ensures '\0' !in CounterPair(counter).0
  {
    hide Matches;
    assert ValidCounter(counter);
    IdentifiersAreClean(counter.value.authorizationId, '\0');
  }

  /** One turn of the counter loop: the list so far, longer by one. */
  method ValidateNextCounter(ghost before: seq<Option<Counter>>, counter: Option<Counter>) returns (ok: bool)
    requires AllCountersValid(before)
    ensures ok <==> AllCountersValid(before + [counter])
  {
    ok := ValidCounter(counter);
    assert counter in before + [counter];
  }

  lemma CountersPrefix(counters: seq<Option<Counter>>, n: nat)
    requires n <= |counters|
    ensures AllCountersValid(counters) ==> AllCountersValid(counters[..n])
  {
  }

  /** The counter loop. */
  method ValidateCounters(counters: seq<Option<Counter>>) returns (ok: bool)
    ensures ok <==> AllCountersValid(counters) && StrictlySorted(counters, LessCounter)
  {
    hide ValidCounter, LessCounter, CounterPair, CounterKey, Less;
    CountersSorted(counters);
    var previous := "";
    for index := 0 to |counters|
      invariant AllCountersValid(counters[..index])
      invariant forall k :: 0 < k < index ==> LessCounter(counters[k - 1], counters[k])
      invariant index > 0 ==> previous == CounterKey(counters[index - 1])
    {
      var valid := ValidateNextCounter(counters[..index], counters[index]);
      assert counters[..index + 1] == counters[..index] + [counters[index]];
      if !valid {
        CountersPrefix(counters, index + 1);
        return false;
      }
      var key := CounterKey(counters[index]);
      if index > 0 { CounterKeyOrder(counters, index); }
      if index > 0 && !Less(previous, key) {
        return false;
      }
      previous := key;
    }
    assert counters[..|counters|] == counters;
    ok := true;
  }

  /** The event loop, in 64-bit arithmetic; a cursor of MaxInt64 does not make it wrap. */
  method ValidateEvents(standard: string -> bool, events: seq<Option<AccessEvent>>, cursor: Word) returns (ok: bool, next: Word)
    requires cursor <= MAXIMUM_INT64
    ensures ok <==> Continues(standard, events, cursor)
    ensures ok ==> next == cursor + |events|
  {
    next := cursor;
    for index := 0 to |events|
      invariant forall i :: 0 <= i < index ==> ValidEvent(standard, events[i]) && events[i].value.sequence == cursor + 1 + i
      invariant next == cursor + index && next <= MAXIMUM_INT64
    {
      if !ValidEvent(standard, events[index]) {
        return false, next;
      }
      if events[index].value.sequence != Add(next, 1) {
        return false, next;
      }
      next := events[index].value.sequence;
    }
    ok := true;
  }

  /** `ValidateCollectTelemetryResponse`. */
  method ValidateCollectTelemetryResponse(standard: string -> bool, request: Option<Request>, response: Option<Response>) returns (ok: bool)
    ensures ok <==> AcceptedPage(standard, request, response)
  {
    if !ValidRequest(request) || response == None || response.value.observedAt <= 0 {
      return false;
    }
    if |response.value.counters| > MAXIMUM_COUNTERS {
      return false;
    }
    var countersOk := ValidateCounters(response.value.counters);
    if !countersOk || |response.value.events| > request.value.maximumEvents {
      return false;
    }
    var eventsOk, next := ValidateEvents(standard, response.value.events, request.value.afterSequence);
    if !eventsOk || response.value.nextSequence != next {
      return false;
    }
    ok := response.value.hasMore ==> |response.value.events| == request.value.maximumEvents;
  }

  // ----- runs -----

  datatype Exchange = Exchange(request: Request, response: Response)

  /** Accepted exchanges, each asking from where the one before left off. */
  ghost predicate Chained(standard: string -> bool, run: seq<Exchange>, cursor: nat) {
    run == [] ||
    (&& AcceptedPage(standard, Some(run[0].request), Some(run[0].response))
     && run[0].request.afterSequence == cursor
     && Chained(standard, run[1..], run[0].response.nextSequence))
  }

  /** All events of a run, in order. */
  function Collected(run: seq<Exchange>): seq<Option<AccessEvent>> {
    if run == [] then [] else run[0].response.events + Collected(run[1..])
  }

  function FinalCursor(run: seq<Exchange>, cursor: nat): nat {
    if run == [] then cursor else FinalCursor(run[1..], run[0].response.nextSequence)
  }

  lemma PageStaysInRange(standard: string -> bool, events: seq<Option<AccessEvent>>, cursor: nat)
    requires Continues(standard, events, cursor)
    ensures cursor <= MAXIMUM_INT64 ==> cursor + |events| <= MAXIMUM_INT64
  {
    if events != [] { assert ValidEvent(standard, events[|events| - 1]); }
  }

  /** Over any run the events are exactly the sequences from the first cursor to the last: no gap, no duplicate, no wrap. */
  lemma {:induction false} CollectedIsContiguous(standard: string -> bool, run: seq<Exchange>, cursor: nat)
    requires Chained(standard, run, cursor)
    ensures Continues(standard, Collected(run), cursor)
    ensures FinalCursor(run, cursor) == cursor + |Collected(run)|
    ensures cursor <= MAXIMUM_INT64 ==> FinalCursor(run, cursor) <= MAXIMUM_INT64
    decreases |run|
  {
    if run != [] {
      var page, next := run[0].response.events, run[0].response.nextSequence;
      PageStaysInRange(standard, page, cursor);
      CollectedIsContiguous(standard, run[1..], next);
      var all := Collected(run);
      forall i | 0 <= i < |all|
        ensures ValidEvent(standard, all[i]) && all[i].value.sequence == cursor + 1 + i
      {
        if i >= |page| { assert all[i] == Collected(run[1..])[i - |page|]; }
      }
    }
  }

  /** Within a run, a page that announces more moves the cursor by exactly the page size it was asked for. */
  lemma {:induction false} FullPagesAdvance(standard: string -> bool, run: seq<Exchange>, cursor: nat, i: nat)
    requires Chained(standard, run, cursor) && i < |run| && run[i].response.hasMore
    ensures run[i].response.nextSequence == run[i].request.afterSequence + run[i].request.maximumEvents
    ensures run[i].request.afterSequence == FinalCursor(run[..i], cursor)
    decreases i
  {
    if i > 0 {
      FullPagesAdvance(standard, run[1..], run[0].response.nextSequence, i - 1);
      assert run[..i][0] == run[0] && run[..i][1..] == run[1..][..i - 1];
    }
  }

  /** At the last representable cursor only an empty page that announces no more is accepted. */
  lemma NothingAfterTheLastSequence(standard: string -> bool, request: Request, response: Response)
    requires AcceptedPage(standard, Some(request), Some(response)) && request.afterSequence == MAXIMUM_INT64
    ensures response.events == [] && !response.hasMore && response.nextSequence == MAXIMUM_INT64
  {
    PageStaysInRange(standard, response.events, request.afterSequence);
  }
}
