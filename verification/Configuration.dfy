/**
 The configuration chain: a center plugin advances a node plugin's configuration by generations
 (`centerplugin/v1/validate.go`), the Agent hands each one to the node plugin (`nodeplugin/v1/validate.go`),
 and the plugin reports what it applied (`pluginfixture/plugin.go`).
 */
module Configuration {
  import opened Text
  import opened Regex
  import opened Patterns
  import opened JsonText
  import opened Encoding
  import opened Commands
  import opened Words

  const MAXIMUM_UI_JSON := 0x8_0000
  const MAXIMUM_MESSAGE := 512

  // ----- center side -----

  datatype ConfigureRequest = ConfigureRequest(nodeId: string, expectedGeneration: Word, json: string)

  datatype Configured = Configured(generation: Word, sha256: string)

  /** `validateJSONObject`. */
  predicate ValidJsonObject(codec: Codec, raw: string) {
    0 < |raw| <= MAXIMUM_UI_JSON && codec.valid(raw) && IsObjectText(raw)
  }

  /** The center's `pluginConfigurationDigest`: two checks, then the Agent's digest. */
  function CenterDigest(codec: Codec, raw: string): (digest: Option<string>)
    ensures digest == ConfigurationDigest(codec, raw)
  {
    if !ValidConfiguration(codec, raw) then None
    else if !ValidJsonObject(codec, raw) then None
    else ConfigurationDigest(codec, raw)
  }

  /** `ValidateConfigureNodePluginRequest`. */
  predicate ValidConfigure(codec: Codec, request: Option<ConfigureRequest>) {
    && request.Some? && Matches(Uuid(), request.value.nodeId)
    && request.value.expectedGeneration < MAXIMUM_INT64
    && CenterDigest(codec, request.value.json).Some?
  }

  /** `ValidateNodePluginConfigured`, with the generation added in 64 bits. */
  predicate AcceptedConfigured(codec: Codec, request: Option<ConfigureRequest>, response: Option<Configured>) {
    && ValidConfigure(codec, request) && response.Some?
    && response.value.generation == Add(request.value.expectedGeneration, 1)
    && CenterDigest(codec, request.value.json) == Some(response.value.sha256)
  }

  datatype Advance = Advance(request: ConfigureRequest, response: Configured)

  /** Accepted exchanges, each expecting the generation the one before was given. */
  ghost predicate Chained(codec: Codec, run: seq<Advance>, generation: nat) {
    && (forall i :: 0 <= i < |run| ==> AcceptedConfigured(codec, Some(run[i].request), Some(run[i].response)))
    && (run != [] ==> run[0].request.expectedGeneration == generation)
    && (forall i :: 0 < i < |run| ==> run[i].request.expectedGeneration == run[i - 1].response.generation)
  }

  /** An accepted exchange moves the generation by one in plain arithmetic: 64 bits never wrap. */
  lemma AcceptedAdvances(codec: Codec, request: ConfigureRequest, response: Configured)
    requires AcceptedConfigured(codec, Some(request), Some(response))
    ensures response.generation == request.expectedGeneration + 1 && response.generation <= MAXIMUM_INT64
  {
    AddOne(request.expectedGeneration);
  }

  /** Over any run generations count up by one, in plain arithmetic and within MaxInt64. */
  lemma {:induction false} GenerationsCount(codec: Codec, run: seq<Advance>, generation: nat, i: nat)
    requires Chained(codec, run, generation) && i < |run|
    ensures run[i].response.generation == generation + i + 1 && run[i].response.generation <= MAXIMUM_INT64
    decreases i
  {
    AcceptedAdvances(codec, run[i].request, run[i].response);
    if i > 0 { GenerationsCount(codec, run, generation, i - 1); }
  }

  // ----- node side -----

  datatype ConfigurationRequest = ConfigurationRequest(generation: Word, json: string, sha256: string)

  datatype Applied = Applied(generation: Word, sha256: string)

  /** `ValidateConfigurationRequest`. */
  predicate ValidRequest(codec: Codec, request: Option<ConfigurationRequest>) {
    && request.Some? && 1 <= request.value.generation <= MAXIMUM_INT64
    && ConfigurationDigest(codec, request.value.json) == Some(request.value.sha256)
  }

  /** The request the Agent makes of an accepted advance. */
  function ToRequest(advance: Advance): ConfigurationRequest {
    ConfigurationRequest(advance.response.generation, advance.request.json, advance.response.sha256)
  }

  /** Every step of a run that starts without a configuration is one the node accepts. */
  lemma AdvanceReachesNode(codec: Codec, run: seq<Advance>, i: nat)
    requires Chained(codec, run, 0) && i < |run|
    ensures ValidRequest(codec, Some(ToRequest(run[i]))) && ToRequest(run[i]).generation == i + 1
  {
    GenerationsCount(codec, run, 0, i);
  }

  // ----- the plugin -----

  datatype Health = Unspecified | Starting | Healthy | Unhealthy

  datatype Status = Status(generation: Word, sha256: string, health: Health, message: string)

  /** `ValidateStatusResponse`; `trimmedPlain` says the message is trimmed and free of control characters. */
  predicate ValidStatus(trimmedPlain: string -> bool, status: Option<Status>) {
    && status.Some?
    && (if status.value.generation == 0 then status.value.sha256 == ""
        else status.value.generation <= MAXIMUM_INT64 && LowerHex(status.value.sha256, 64))
    && status.value.health != Unspecified
    && (status.value.health == Healthy ==> status.value.generation != 0)
    && |status.value.message| <= MAXIMUM_MESSAGE && trimmedPlain(status.value.message)
  }

  predicate Contains(s: string, part: string) {
    exists i :: 0 <= i <= |s| && part <= s[i..]
  }

  /** The part stands somewhere in the text. */
  lemma ContainsIs(s: string, part: string)
    ensures Contains(s, part) <==> exists before: string, after: string :: s == before + part + after
  {
    if Contains(s, part) {
      var i :| 0 <= i <= |s| && part <= s[i..];
      assert s == s[..i] + part + s[i..][|part|..];
    }
    if before: string, after: string :| s == before + part + after {
      assert s[|before|..] == part + after;
    }
  }

  const DEGRADE := "\"degrade\":true"

  /** The plugin's fields. */
  datatype PluginState = PluginState(generation: Word, digest: string, degrade: bool, statusCalls: nat)

  const FRESH := PluginState(0, "", false, 0)

  datatype Call = Apply(request: Option<ConfigurationRequest>) | Poll

  function Step(codec: Codec, state: PluginState, call: Call): PluginState {
    match call
    case Apply(request) =>
      if !ValidRequest(codec, request) then state
      else PluginState(request.value.generation, request.value.sha256, Contains(request.value.json, DEGRADE), 0)
    case Poll =>
      if state.generation == 0 then state else state.(statusCalls := state.statusCalls + 1)
  }

  function Report(state: PluginState): Status {
    var health :=
      if state.generation == 0 then Starting
      else if state.degrade && state.statusCalls > 0 then Unhealthy
      else Healthy;
    Status(state.generation, state.digest, health, "")
  }

  /** `nodePlugin`; its mutex makes each call one step. */
  class Plugin {
    var generation: Word
    var digest: string
    var degrade: bool
    var statusCalls: nat

    function State(): PluginState
      reads this
    {
      PluginState(generation, digest, degrade, statusCalls)
    }

    constructor ()
      ensures State() == FRESH
    {
      generation, digest, degrade, statusCalls := 0, "", false, 0;
    }

    /** `ApplyConfiguration`. */
    method ApplyConfiguration(codec: Codec, request: Option<ConfigurationRequest>) returns (applied: Option<Applied>)
      modifies this
      ensures State() == Step(codec, old(State()), Apply(request))
      ensures applied == if ValidRequest(codec, request) then Some(Applied(request.value.generation, request.value.sha256)) else None
    {
      if !ValidRequest(codec, request) {
        return None;
      }
      generation := request.value.generation;
      digest := request.value.sha256;
      degrade := Contains(request.value.json, DEGRADE);
      statusCalls := 0;
      applied := Some(Applied(request.value.generation, request.value.sha256));
    }

    /** `GetStatus`. */
    method GetStatus(codec: Codec) returns (status: Status)
      modifies this
      ensures status == Report(old(State()))
      ensures State() == Step(codec, old(State()), Poll)
    {
      var health := Starting;
      if generation != 0 {
        health := Healthy;
        if degrade && statusCalls > 0 {
          health := Unhealthy;
        }
        statusCalls := statusCalls + 1;
      }
      status := Status(generation, digest, health, "");
    }
  }

  function Run(codec: Codec, calls: seq<Call>): PluginState {
    if calls == [] then FRESH else Step(codec, Run(codec, calls[..|calls| - 1]), calls[|calls| - 1])
  }

  /** The last request of a history that was accepted. */
  function LastApplied(codec: Codec, calls: seq<Call>): Option<ConfigurationRequest> {
    if calls == [] then None
    else
      var last := calls[|calls| - 1];
      if last.Apply? && ValidRequest(codec, last.request) then last.request
      else LastApplied(codec, calls[..|calls| - 1])
  }

  /** Whether status was asked for since that request. */
  predicate AskedSince(codec: Codec, calls: seq<Call>) {
    calls != [] &&
    var last := calls[|calls| - 1];
    !(last.Apply? && ValidRequest(codec, last.request))
    && (last.Poll? || AskedSince(codec, calls[..|calls| - 1]))
  }

  /** The state tells the history apart exactly this far. */
  lemma {:induction false} StateIsHistory(codec: Codec, calls: seq<Call>)
    ensures var state, last := Run(codec, calls), LastApplied(codec, calls);
            if last == None then state == FRESH
            else && ValidRequest(codec, last)
                 && state.generation == last.value.generation && state.digest == last.value.sha256
                 && state.degrade == Contains(last.value.json, DEGRADE)
                 && (state.statusCalls > 0 <==> AskedSince(codec, calls))
  {
    if calls != [] { StateIsHistory(codec, calls[..|calls| - 1]); }
  }

  /**
   After any history of calls, valid or not, the next status is one the Agent accepts; it names the last
   configuration applied, and it is unhealthy exactly for a degrading one already asked about.
   */
  lemma StatusAlwaysValid(codec: Codec, trimmedPlain: string -> bool, calls: seq<Call>)
    requires trimmedPlain("")
    ensures var status, last := Report(Run(codec, calls)), LastApplied(codec, calls);
            && ValidStatus(trimmedPlain, Some(status))
            && (last == None ==> status.generation == 0 && status.health == Starting)
            && (last.Some? ==> && status.generation == last.value.generation && status.sha256 == last.value.sha256
                               && (status.health == Unhealthy <==> Contains(last.value.json, DEGRADE) && AskedSince(codec, calls))
                               && (status.health == Healthy <==> !(Contains(last.value.json, DEGRADE) && AskedSince(codec, calls))))
  {
    StateIsHistory(codec, calls);
  }

  /** End to end: once the node applied the i-th advance of a run, status reports generation i + 1 and its digest. */
  lemma ChainReported(codec: Codec, run: seq<Advance>, i: nat, before: seq<Call>, polls: nat)
    requires Chained(codec, run, 0) && i < |run|
    ensures var calls := before + [Apply(Some(ToRequest(run[i])))] + seq(polls, k => Poll);
            && Report(Run(codec, calls)).generation == i + 1
            && Some(Report(Run(codec, calls)).sha256) == ConfigurationDigest(codec, run[i].request.json)
  {
    AdvanceReachesNode(codec, run, i);
    var applied := before + [Apply(Some(ToRequest(run[i])))];
    PollsChangeNothing(codec, applied, polls);
    assert applied[..|applied| - 1] == before;
  }

  lemma {:induction false} PollsChangeNothing(codec: Codec, calls: seq<Call>, polls: nat)
    ensures Run(codec, calls + seq(polls, k => Poll)).generation == Run(codec, calls).generation
    ensures Run(codec, calls + seq(polls, k => Poll)).digest == Run(codec, calls).digest
  {
    var all := calls + seq(polls, k => Poll);
    if polls == 0 {
      assert all == calls;
    } else {
      assert all[..|all| - 1] == calls + seq(polls - 1, k => Poll);
      PollsChangeNothing(codec, calls, polls - 1);
    }
  }
}
