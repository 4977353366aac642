/** Authorization policies: validation, the reconcile snapshot and its canonical order (`agent/v1/policies.go`). */
module Policies {
  import opened Text
  import opened Regex
  import opened Patterns
  import opened Zones
  import opened Periods
  import opened PeriodTheorems
  import opened Sorting
  import opened Keys
  import opened Words

  const MAXIMUM_POLICIES := 4096
  const MAXIMUM_BINDINGS := 256

  datatype Binding = Binding(pluginId: string, serviceId: string)

  datatype Policy = Policy(
    authorizationId: string,
    startedAt: int,
    enabled: bool,
    trafficLimit: Option<nat>,
    rule: ResetRule,
    period: Period,
    expiresAt: Option<int>,
    softIpLimit: Option<nat>,
    activityWindow: nat,
    blockDuration: nat,
    bindings: seq<Binding>)

  // ----- bindings -----

  /** By plugin, then by service. */
  predicate LessBinding(a: Binding, b: Binding) {
    Less(a.pluginId, b.pluginId) || (a.pluginId == b.pluginId && Less(a.serviceId, b.serviceId))
  }

  predicate ValidBinding(b: Binding) {
    |b.pluginId| <= 128 && Matches(PluginId(), b.pluginId) && Matches(ComponentId(), b.serviceId)
  }

  /** On valid bindings comparing the joined keys is comparing plugin and service. */
  lemma BindingKeyOrder(a: Binding, b: Binding)
    requires ValidBinding(a) && ValidBinding(b)
    ensures Less(a.pluginId + "\0" + a.serviceId, b.pluginId + "\0" + b.serviceId) <==> LessBinding(a, b)
  {
    IdentifiersAreClean(a.pluginId, '\0');
    IdentifiersAreClean(b.pluginId, '\0');
    JoinOrder(a.pluginId, a.serviceId, b.pluginId, b.serviceId);
  }

  lemma BindingsOrdered()
    ensures TotalOrder(LessBinding)
  {
    PairsOrdered();
    hide Less;
    assert forall a: Binding, b: Binding ::
      LessBinding(a, b) <==> LessPair((a.pluginId, a.serviceId), (b.pluginId, b.serviceId));
    forall a: Binding, b: Binding
      ensures LessBinding(a, b) || a == b || LessBinding(b, a)
    {
      var x, y := (a.pluginId, a.serviceId), (b.pluginId, b.serviceId);
      assert LessPair(x, y) || x == y || LessPair(y, x);
    }
  }

  /** Accepted bindings ascend by plugin and, under one plugin, by service. */
  lemma AcceptedBindingsAscend(host: Host, policy: Policy, i: nat, j: nat)
    requires AcceptedPolicy(host, policy) && i < j < |policy.bindings|
    ensures var first, second := policy.bindings[i], policy.bindings[j];
            Less(first.pluginId, second.pluginId)
            || (first.pluginId == second.pluginId && Less(first.serviceId, second.serviceId))
  {
    hide Matches, ReEvaluates, ValidPeriod, ValidRule, ValidLimits, Less;
    assert LessBinding(policy.bindings[i], policy.bindings[j]);
  }

  predicate ValidBindings(bindings: seq<Binding>) {
    |bindings| <= MAXIMUM_BINDINGS && forall b :: b in bindings ==> ValidBinding(b)
  }

  /** The binding loop of `ValidateAuthorizationPolicy`. */
  method ValidateBindings(bindings: seq<Binding>) returns (ok: bool)
    ensures ok <==> ValidBindings(bindings) && StrictlySorted(bindings, LessBinding)
  {
    hide Matches, Less;
    if |bindings| > MAXIMUM_BINDINGS {
      return false;
    }
    BindingsOrdered();
    var previous := "";
    for index := 0 to |bindings|
      invariant forall b :: b in bindings[..index] ==> ValidBinding(b)
      invariant forall k :: 0 < k < index ==> LessBinding(bindings[k - 1], bindings[k])
      invariant index > 0 ==> previous == bindings[index - 1].pluginId + "\0" + bindings[index - 1].serviceId
    {
      var binding := bindings[index];
      if |binding.pluginId| > 128 || !Matches(PluginId(), binding.pluginId) || !Matches(ComponentId(), binding.serviceId) {
        assert !ValidBinding(binding);
        return false;
      }
      assert ValidBinding(binding);
      var key := binding.pluginId + "\0" + binding.serviceId;
      if index > 0 { BindingKeyOrder(bindings[index - 1], binding); }
      if index > 0 && !Less(previous, key) {
        return false;
      }
      previous := key;
      assert bindings[..index + 1] == bindings[..index] + [binding];
    }
    assert bindings[..|bindings|] == bindings;
    NeighboursSort(bindings, LessBinding);
    ok := true;
  }

  // ----- policies -----

  predicate ValidLimits(policy: Policy) {
    && (policy.trafficLimit.Some? ==> policy.trafficLimit.value <= MAXIMUM_INT64)
    && (policy.expiresAt.Some? ==> policy.expiresAt.value != ZERO && policy.expiresAt.value > policy.startedAt)
    && (policy.softIpLimit.Some? ==> 1 <= policy.softIpLimit.value <= 1024)
    && 60 <= policy.activityWindow <= 86400
    && 60 <= policy.blockDuration <= 604800
  }

  /** What `ValidateAuthorizationPolicy` accepts. */
  ghost predicate AcceptedPolicy(host: Host, policy: Policy) {
    && Matches(Uuid(), policy.authorizationId)
    && policy.startedAt != ZERO
    && ValidLimits(policy)
    && ValidRule(host, policy.rule) && ValidPeriod(host, policy.period)
    && ReEvaluates(host, policy.rule, policy.startedAt, policy.period)
    && ValidBindings(policy.bindings) && StrictlySorted(policy.bindings, LessBinding)
  }

  /** If the policy's period is evaluated, the evaluation ends. */
  ghost predicate Decidable(host: Host, policy: Policy) {
    ValidPeriod(host, policy.period) ==> Evaluable(host, policy.rule, policy.startedAt, policy.period.startsAt)
  }

  /** `ValidateAuthorizationPolicy`. */
  method ValidateAuthorizationPolicy(host: Host, policy: Policy) returns (ok: bool)
    requires Decidable(host, policy)
    ensures ok <==> AcceptedPolicy(host, policy)
  {
    if !Matches(Uuid(), policy.authorizationId) || policy.startedAt == ZERO {
      return false;
    }
    if !ValidRule(host, policy.rule) || !ValidPeriod(host, policy.period) {
      return false;
    }
    var computed := CurrentPeriod(host, policy.rule, policy.startedAt, policy.period.startsAt);
    if computed == None || !SamePeriod(computed.value, policy.period) {
      return false;
    }
    if !ValidLimits(policy) {
      return false;
    }
    ok := ValidateBindings(policy.bindings);
  }

  /** A period passes the checks exactly when the rule produces it for some instant. */
  lemma AcceptedPeriodIsProduced(host: Host, policy: Policy, from: int, limit: int)
    requires Promised(host, policy.rule, from, limit) && policy.startedAt > ZERO && from <= policy.period.startsAt < limit
    ensures ValidPeriod(host, policy.period) && ReEvaluates(host, policy.rule, policy.startedAt, policy.period)
       <==> exists at :: Asked(from, limit, policy.startedAt, at) && PeriodAt(host, policy.rule, policy.startedAt, at) == Some(policy.period)
  {
    hide Promised, PeriodAt, ValidPeriod, ReEvaluates;
    ReEvaluationIsExact(host, policy.rule, from, limit, policy.startedAt, policy.period);
    if at :| Asked(from, limit, policy.startedAt, at) && PeriodAt(host, policy.rule, policy.startedAt, at) == Some(policy.period) {
      ComputedPeriodIsValid(host, policy.rule, from, limit, policy.startedAt, at);
    }
  }

  predicate LessId(a: Policy, b: Policy) {
    Less(a.authorizationId, b.authorizationId)
  }

  lemma PoliciesOrdered()
    ensures StrictWeakOrder(LessId)
  {
    StringsOrdered();
    forall a: Policy, b: Policy, c: Policy | !LessId(a, b) && !LessId(b, c)
      ensures !LessId(a, c)
    {
      LessTotal(a.authorizationId, b.authorizationId);
      LessTotal(b.authorizationId, c.authorizationId);
    }
  }

  ghost predicate AllAccepted(host: Host, policies: seq<Policy>) {
    forall policy :: policy in policies ==> AcceptedPolicy(host, policy)
  }

  /** One turn of the snapshot loop: the list so far, longer by one. */
  method ValidateNext(host: Host, ghost before: seq<Policy>, policy: Policy) returns (ok: bool)
    requires Decidable(host, policy) && AllAccepted(host, before)
    ensures ok <==> AllAccepted(host, before + [policy])
  {
    ok := ValidateAuthorizationPolicy(host, policy);
    assert policy in before + [policy];
  }

  lemma AcceptedPrefix(host: Host, policies: seq<Policy>, n: nat)
    requires n <= |policies|
    ensures AllAccepted(host, policies) ==> AllAccepted(host, policies[..n])
  {
  }

  /** `ValidatePolicyReconcileCommand`: the snapshot is strictly sorted by authorization ID, hence without duplicates. */
  method ValidatePolicyReconcileCommand(host: Host, generation: nat, policies: seq<Policy>) returns (ok: bool)
    requires forall policy :: policy in policies ==> Decidable(host, policy)
    ensures ok <==> && 1 <= generation <= MAXIMUM_INT64 && |policies| <= MAXIMUM_POLICIES
                    && AllAccepted(host, policies) && StrictlySorted(policies, LessId)
  {
    if generation == 0 || generation > MAXIMUM_INT64 || |policies| > MAXIMUM_POLICIES {
      return false;
    }
    PoliciesOrdered();
    var previous := "";
    for index := 0 to |policies|
      invariant AllAccepted(host, policies[..index])
      invariant forall k :: 0 < k < index ==> LessId(policies[k - 1], policies[k])
      invariant index > 0 ==> previous == policies[index - 1].authorizationId
    {
      var accepted := ValidateNext(host, policies[..index], policies[index]);
      assert policies[..index + 1] == policies[..index] + [policies[index]];
      if !accepted {
        AcceptedPrefix(host, policies, index + 1);
        return false;
      }
      if index > 0 && !Less(previous, policies[index].authorizationId) {
        assert !LessId(policies[index - 1], policies[index]);
        return false;
      }
      previous := policies[index].authorizationId;
    }
    assert policies[..|policies|] == policies;
    NeighboursSort(policies, LessId);
    ok := true;
  }

  // ----- canonical order -----

  /** A policy up to the order of its bindings. */
  ghost function View(policy: Policy): (Policy, multiset<Binding>) {
    (policy.(bindings := []), multiset(policy.bindings))
  }

  ghost function Views(policies: seq<Policy>): seq<(Policy, multiset<Binding>)> {
    Map(policies, View)
  }

  /** The same policies, with the same bindings each, listed in any order. */
  ghost predicate SameUpToOrder(a: seq<Policy>, b: seq<Policy>) {
    multiset(Views(a)) == multiset(Views(b))
  }

  /** What `SortPolicies` leaves behind. */
  ghost predicate IsSortOf(input: seq<Policy>, output: seq<Policy>) {
    && SameUpToOrder(input, output)
    && Sorted(output, LessId)
    && forall policy :: policy in output ==> Sorted(policy.bindings, LessBinding)
  }

  method SortBindings(bindings: seq<Binding>) returns (sorted: seq<Binding>)
    ensures Sorted(sorted, LessBinding) && multiset(sorted) == multiset(bindings)
  {
    BindingsOrdered();
    var a := new Binding[|bindings|](i requires 0 <= i < |bindings| => bindings[i]);
    assert a[..] == bindings;
    SortSlice(a, LessBinding);
    sorted := a[..];
  }

  /** `SortPolicies`: in place, the policies and then each policy's bindings. */
  method SortPolicies(values: array<Policy>)
    modifies values
    ensures IsSortOf(old(values[..]), values[..])
  {
    PoliciesOrdered();
    ghost var input := values[..];
    SortSlice(values, LessId);
    MapPermutes(values[..], input, View);
    ghost var byId := values[..];
    for index := 0 to values.Length
      invariant |values[..]| == |byId| && Views(values[..]) == Views(byId)
      invariant forall i :: 0 <= i < |byId| ==> values[i].authorizationId == byId[i].authorizationId
      invariant forall i :: 0 <= i < index ==> Sorted(values[i].bindings, LessBinding)
    {
      var sorted := SortBindings(values[index].bindings);
      ghost var before := values[..];
      values[index] := values[index].(bindings := sorted);
      assert values[..] == before[index := values[index]];
      assert View(values[index]) == View(before[index]);
    }
    forall i, j | 0 <= i < j < values.Length
      ensures !LessId(values[j], values[i])
    {
      assert !LessId(byId[j], byId[i]);
    }
  }

  /** Sorted policies come by authorization, and the bindings of each by plugin, then by service. */
  lemma SortedByFields(input: seq<Policy>, output: seq<Policy>)
    requires IsSortOf(input, output)
    ensures forall i, j :: 0 <= i < j < |output| ==> !Less(output[j].authorizationId, output[i].authorizationId)
    ensures forall policy, i, j :: policy in output && 0 <= i < j < |policy.bindings| ==>
              var first, second := policy.bindings[i], policy.bindings[j];
              !Less(second.pluginId, first.pluginId)
              && (first.pluginId == second.pluginId ==> !Less(second.serviceId, first.serviceId))
  {
    hide Less, SameUpToOrder;
    forall i, j | 0 <= i < j < |output|
      ensures !Less(output[j].authorizationId, output[i].authorizationId)
    {
      assert !LessId(output[j], output[i]);
    }
    forall policy, i, j | policy in output && 0 <= i < j < |policy.bindings|
      ensures !LessBinding(policy.bindings[j], policy.bindings[i])
    {
    }
  }

  /** Every policy is listed once, and so is every binding of each policy. */
  ghost predicate WithoutDuplicates(policies: seq<Policy>) {
    && Distinct(Map(policies, (policy: Policy) => policy.authorizationId))
    && forall policy :: policy in policies ==> Distinct(policy.bindings)
  }

  lemma SortedDistinctIsStrict<T(!new)>(s: seq<T>, less: (T, T) -> bool)
    requires Sorted(s, less) && Distinct(s) && forall x, y :: less(x, y) || x == y || less(y, x)
    ensures StrictlySorted(s, less)
  {
  }

  /** Neither kind of uniqueness depends on the listing order. */
  lemma DuplicatesIgnoreOrder(a: seq<Policy>, b: seq<Policy>)
    requires SameUpToOrder(a, b) && WithoutDuplicates(a)
    ensures WithoutDuplicates(b)
  {
    var idOf := (view: (Policy, multiset<Binding>)) => view.0.authorizationId;
    MapPermutes(Views(a), Views(b), idOf);
    assert Map(Views(a), idOf) == Map(a, (policy: Policy) => policy.authorizationId);
    assert Map(Views(b), idOf) == Map(b, (policy: Policy) => policy.authorizationId);
    DistinctPermutes(Map(Views(a), idOf), Map(Views(b), idOf));
    forall policy | policy in b
      ensures Distinct(policy.bindings)
    {
      var i :| 0 <= i < |b| && b[i] == policy;
      assert View(policy) == Views(b)[i] && View(policy) in multiset(Views(b));
      assert View(policy) in multiset(Views(a));
      var j :| 0 <= j < |a| && Views(a)[j] == View(policy);
      assert a[j] in a && multiset(a[j].bindings) == multiset(policy.bindings);
      DistinctPermutes(a[j].bindings, policy.bindings);
    }
  }

  /** A sorted listing without duplicates passes both ordering checks of the validators. */
  lemma SortPassesChecks(input: seq<Policy>, output: seq<Policy>)
    requires IsSortOf(input, output) && WithoutDuplicates(input)
    ensures StrictlySorted(output, LessId)
    ensures forall policy :: policy in output ==> StrictlySorted(policy.bindings, LessBinding)
  {
    DuplicatesIgnoreOrder(input, output);
    var ids := Map(output, (policy: Policy) => policy.authorizationId);
    forall i, j | 0 <= i < j < |output|
      ensures LessId(output[i], output[j])
    {
      assert ids[i] != ids[j] && !LessId(output[j], output[i]);
      LessTotal(ids[i], ids[j]);
    }
    BindingsOrdered();
    forall policy | policy in output
      ensures StrictlySorted(policy.bindings, LessBinding)
    {
      SortedDistinctIsStrict(policy.bindings, LessBinding);
    }
  }

  /** The sorted form is canonical: listings that differ only in order sort to the same list. */
  lemma SortIsCanonical(a: seq<Policy>, b: seq<Policy>, sortedA: seq<Policy>, sortedB: seq<Policy>)
    requires SameUpToOrder(a, b) && WithoutDuplicates(a)
    requires IsSortOf(a, sortedA) && IsSortOf(b, sortedB)
    ensures sortedA == sortedB
  {
    DuplicatesIgnoreOrder(a, b);
    SortPassesChecks(a, sortedA);
    SortPassesChecks(b, sortedB);
    ViewsAgree(sortedA, sortedB);
    BindingsOrdered();
    forall i | 0 <= i < |sortedA|
      ensures sortedA[i] == sortedB[i]
    {
      assert View(sortedA[i]) == Views(sortedA)[i] == Views(sortedB)[i] == View(sortedB[i]);
      assert sortedA[i] in sortedA && sortedB[i] in sortedB;
      StrictlySortedUnique(sortedA[i].bindings, sortedB[i].bindings, LessBinding);
      assert sortedA[i] == View(sortedA[i]).0.(bindings := sortedA[i].bindings);
      assert sortedB[i] == View(sortedB[i]).0.(bindings := sortedB[i].bindings);
    }
  }

  lemma ViewsAgree(a: seq<Policy>, b: seq<Policy>)
    requires SameUpToOrder(a, b) && StrictlySorted(a, LessId) && StrictlySorted(b, LessId)
    ensures Views(a) == Views(b)
  {
    var lessView := (x: (Policy, multiset<Binding>), y: (Policy, multiset<Binding>)) => LessId(x.0, y.0);
    PoliciesOrdered();
    assert StrictlySorted(Views(a), lessView) && StrictlySorted(Views(b), lessView);
    StrictlySortedUnique(Views(a), Views(b), lessView);
  }
}
