/** Rendered subscriptions and their byte budget: `centerplugin/v1/validate.go`. */
module Subscriptions {
  import opened Text
  import opened Regex
  import opened Patterns
  import opened JsonText
  import opened Sorting
  import opened Keys

  const MAXIMUM_SERVICES := 256
  const MAXIMUM_FRAGMENTS := 32
  const MAXIMUM_FRAGMENT := 0x1_0000
  const MAXIMUM_TOTAL := 0x8_0000
  const MAXIMUM_URI := 8192

  /** No accumulator value can exceed the budget plus one service of the largest shape: 4,980,736 bytes. */
  const MAXIMUM_MIDWAY := MAXIMUM_TOTAL + MAXIMUM_FRAGMENTS * MAXIMUM_URI + 2 * MAXIMUM_FRAGMENTS * MAXIMUM_FRAGMENT

  type Accumulator = n: int | 0 <= n <= MAXIMUM_MIDWAY

  /** The checks on texts this model does not look into. */
  datatype Checks = Checks(
    displayName: string -> bool,   // validateDisplayName
    uri: string -> bool,           // no spaces or controls, trimmed, and parsed as an absolute URI
    json: string -> bool)          // json.Valid

  datatype Requested = Requested(serviceId: string, displayName: string)

  datatype Request = Request(authorizationId: string, nodeId: string, services: seq<Option<Requested>>)

  datatype Contribution = Contribution(serviceId: string, displayName: string, uris: seq<string>,
                                       mihomo: seq<string>, singBox: seq<string>)

  // ----- sizes -----

  function Bytes(texts: seq<string>): nat {
    if texts == [] then 0 else Bytes(texts[..|texts| - 1]) + |texts[|texts| - 1]|
  }

  function Size(contribution: Contribution): nat {
    Bytes(contribution.uris) + Bytes(contribution.mihomo) + Bytes(contribution.singBox)
  }

  function Total(services: seq<Option<Contribution>>): nat {
    if services == [] then 0
    else
      var last := services[|services| - 1];
      Total(services[..|services| - 1]) + (if last == None then 0 else Size(last.value))
  }

  lemma {:induction false} BytesBounded(texts: seq<string>, limit: nat)
    requires forall text :: text in texts ==> |text| <= limit
    ensures Bytes(texts) <= |texts| * limit
  {
    if texts != [] {
      var init := texts[..|texts| - 1];
      BytesBounded(init, limit);
      assert |texts| * limit == |init| * limit + limit;
      assert texts[|texts| - 1] in texts;
    }
  }

  lemma {:induction false} TotalGrows(services: seq<Option<Contribution>>, n: nat)
    requires n <= |services|
    ensures Total(services[..n]) <= Total(services)
    decreases |services| - n
  {
    if n < |services| {
      TotalGrows(services, n + 1);
      assert services[..n + 1][..n] == services[..n];
    } else {
      assert services[..n] == services;
    }
  }

  /** Texts laid end to end. */
  function Concat(texts: seq<string>): string {
    if texts == [] then "" else texts[0] + Concat(texts[1..])
  }

  /** Every URI, Mihomo proxy and sing-box outbound of every service. */
  function Texts(services: seq<Option<Contribution>>): seq<string> {
    if services == [] then []
    else
      var last := services[|services| - 1];
      Texts(services[..|services| - 1])
      + (if last == None then [] else last.value.uris + last.value.mihomo + last.value.singBox)
  }

  lemma {:induction false} ConcatLength(a: seq<string>, b: seq<string>)
    ensures |Concat(a + b)| == |Concat(a)| + |Concat(b)|
  {
    if a == [] {
      assert a + b == b;
    } else {
      assert (a + b)[1..] == a[1..] + b;
      ConcatLength(a[1..], b);
    }
  }

  lemma {:induction false} BytesIsLength(texts: seq<string>)
    ensures Bytes(texts) == |Concat(texts)|
  {
    if texts != [] {
      var init, last := texts[..|texts| - 1], texts[|texts| - 1];
      BytesIsLength(init);
      ConcatLength(init, [last]);
      assert texts == init + [last] && Concat([last]) == last + Concat([]);
    }
  }

  lemma SizeIsLength(contribution: Contribution)
    ensures Size(contribution) == |Concat(contribution.uris + contribution.mihomo + contribution.singBox)|
  {
    BytesIsLength(contribution.uris);
    BytesIsLength(contribution.mihomo);
    BytesIsLength(contribution.singBox);
    ConcatLength(contribution.uris, contribution.mihomo);
    ConcatLength(contribution.uris + contribution.mihomo, contribution.singBox);
  }

  /** The budget counts every byte of every text once. */
  lemma {:induction false} TotalIsLength(services: seq<Option<Contribution>>)
    ensures Total(services) == |Concat(Texts(services))|
  {
    if services != [] {
      var init, last := services[..|services| - 1], services[|services| - 1];
      TotalIsLength(init);
      if last.Some? {
        SizeIsLength(last.value);
        ConcatLength(Texts(init), last.value.uris + last.value.mihomo + last.value.singBox);
      } else {
        assert Texts(init) + [] == Texts(init);
      }
    }
  }

  // ----- one contribution -----

  /** `validateSubscriptionURI`. */
  predicate ValidUri(checks: Checks, uri: string) {
    0 < |uri| <= MAXIMUM_URI && checks.uri(uri)
  }

  /** One fragment: small enough, and a JSON object. */
  predicate ValidFragment(checks: Checks, fragment: string) {
    0 < |fragment| <= MAXIMUM_FRAGMENT && checks.json(fragment) && IsObjectText(fragment)
  }

  predicate ValidUris(checks: Checks, uris: seq<string>) {
    forall uri :: uri in uris ==> ValidUri(checks, uri)
  }

  predicate ValidFragments(checks: Checks, fragments: seq<string>) {
    forall fragment :: fragment in fragments ==> ValidFragment(checks, fragment)
  }

  ghost predicate ValidContribution(checks: Checks, contribution: Contribution) {
    && checks.displayName(contribution.displayName)
    && |contribution.uris| + |contribution.mihomo| + |contribution.singBox| > 0
    && |contribution.uris| <= MAXIMUM_FRAGMENTS && |contribution.mihomo| <= MAXIMUM_FRAGMENTS
    && |contribution.singBox| <= MAXIMUM_FRAGMENTS
    && ValidUris(checks, contribution.uris) && StrictlySorted(contribution.uris, Less)
    && ValidFragments(checks, contribution.mihomo) && ValidFragments(checks, contribution.singBox)
  }

  lemma OneMoreUri(checks: Checks, uris: seq<string>, index: nat)
    requires index < |uris|
    ensures ValidUris(checks, uris) ==> ValidUri(checks, uris[index])
    ensures ValidUris(checks, uris[..index]) && ValidUri(checks, uris[index]) ==> ValidUris(checks, uris[..index + 1])
    ensures Bytes(uris[..index + 1]) == Bytes(uris[..index]) + |uris[index]|
    ensures ValidUri(checks, uris[index]) ==> |uris[index]| <= MAXIMUM_URI
  {
    assert uris[..index + 1] == uris[..index] + [uris[index]];
    assert uris[index] in uris;
  }

  lemma NoUris(checks: Checks, uris: seq<string>)
    ensures ValidUris(checks, uris[..0]) && Bytes(uris[..0]) == 0
  {
  }

  /** The URI loop: order, shape, and the running total. */
  method AddUris(checks: Checks, uris: seq<string>, before: Accumulator) returns (ok: bool, total: Accumulator)
    requires |uris| <= MAXIMUM_FRAGMENTS && before <= MAXIMUM_TOTAL
    ensures ok <==> ValidUris(checks, uris) && StrictlySorted(uris, Less)
    ensures ok ==> total == before + Bytes(uris) && total <= MAXIMUM_TOTAL + MAXIMUM_FRAGMENTS * MAXIMUM_URI
  {
    hide StrictlySorted, Less, ValidUri, ValidUris, Bytes;
    NeighboursSortStrings(uris);
    total := before;
    NoUris(checks, uris);
    var previous := "";
    for index := 0 to |uris|
      invariant ValidUris(checks, uris[..index])
      invariant forall k :: 0 < k < index ==> Less(uris[k - 1], uris[k])
      invariant index > 0 ==> previous == uris[index - 1]
      invariant total == before + Bytes(uris[..index]) && total <= before + index * MAXIMUM_URI
    {
      var uri := uris[index];
      OneMoreUri(checks, uris, index);
      if !Less(previous, uri) && index > 0 {
        return false, total;
      }
      previous := uri;
      if !ValidUri(checks, uri) {
        return false, total;
      }
      total := total + |uri|;
    }
    assert uris[..|uris|] == uris;
    ok := true;
  }

  /** The loop over one kind of fragments. */
  method AddFragments(checks: Checks, fragments: seq<string>, before: Accumulator) returns (ok: bool, total: Accumulator)
    requires |fragments| <= MAXIMUM_FRAGMENTS && before <= MAXIMUM_MIDWAY - MAXIMUM_FRAGMENTS * MAXIMUM_FRAGMENT
    ensures ok <==> ValidFragments(checks, fragments)
    ensures ok ==> total == before + Bytes(fragments) && total <= before + MAXIMUM_FRAGMENTS * MAXIMUM_FRAGMENT
  {
    total := before;
    for index := 0 to |fragments|
      invariant forall fragment :: fragment in fragments[..index] ==> ValidFragment(checks, fragment)
      invariant total == before + Bytes(fragments[..index]) && total <= before + index * MAXIMUM_FRAGMENT
    {
      var fragment := fragments[index];
      if !ValidFragment(checks, fragment) {
        return false, total;
      }
      assert fragments[..index + 1] == fragments[..index] + [fragment];
      total := total + |fragment|;
    }
    assert fragments[..|fragments|] == fragments;
    ok := true;
  }

  /** The checks of one contribution, adding its bytes to the total; the accumulator's type bounds it midway. */
  method AddContribution(checks: Checks, contribution: Contribution, before: Accumulator) returns (ok: bool, total: Accumulator)
    requires before <= MAXIMUM_TOTAL
    ensures ok <==> ValidContribution(checks, contribution)
    ensures ok ==> total == before + |Concat(contribution.uris + contribution.mihomo + contribution.singBox)|
  {
    SizeIsLength(contribution);
    hide Concat;
    total := before;
    if !checks.displayName(contribution.displayName) {
      return false, total;
    }
    if |contribution.uris| + |contribution.mihomo| + |contribution.singBox| == 0 {
      return false, total;
    }
    if |contribution.uris| > MAXIMUM_FRAGMENTS || |contribution.mihomo| > MAXIMUM_FRAGMENTS
      || |contribution.singBox| > MAXIMUM_FRAGMENTS {
      return false, total;
    }
    ok, total := AddUris(checks, contribution.uris, total);
    if !ok {
      return;
    }
    ok, total := AddFragments(checks, contribution.mihomo, total);
    if !ok {
      return;
    }
    ok, total := AddFragments(checks, contribution.singBox, total);
  }

  // ----- requests and responses -----

  predicate ValidRequested(checks: Checks, service: Option<Requested>) {
    service.Some? && Matches(ComponentId(), service.value.serviceId) && checks.displayName(service.value.displayName)
  }

  function RequestedId(service: Option<Requested>): string {
    if service == None then "" else service.value.serviceId
  }

  predicate LessRequested(a: Option<Requested>, b: Option<Requested>) {
    Less(RequestedId(a), RequestedId(b))
  }

  predicate AllRequestedValid(checks: Checks, services: seq<Option<Requested>>) {
    forall service :: service in services ==> ValidRequested(checks, service)
  }

  /** What `ValidateRenderSubscriptionRequest` accepts. */
  ghost predicate AcceptedRequest(checks: Checks, request: Option<Request>) {
    && request.Some?
    && Matches(Uuid(), request.value.authorizationId) && Matches(Uuid(), request.value.nodeId)
    && 1 <= |request.value.services| <= MAXIMUM_SERVICES
    && AllRequestedValid(checks, request.value.services) && StrictlySorted(request.value.services, LessRequested)
  }

  lemma RequestedSorted(services: seq<Option<Requested>>)
    ensures StrictlySorted(services, LessRequested) <==> forall k :: 0 < k < |services| ==> LessRequested(services[k - 1], services[k])
  {
    StringsOrdered();
    assert forall a: Option<Requested>, b: Option<Requested> :: LessRequested(a, b) <==> Less(RequestedId(a), RequestedId(b));
    NeighboursSort(services, LessRequested);
  }

  method ValidateNextRequested(checks: Checks, ghost before: seq<Option<Requested>>, service: Option<Requested>) returns (ok: bool)
    requires AllRequestedValid(checks, before)
    ensures ok <==> AllRequestedValid(checks, before + [service])
  {
    ok := ValidRequested(checks, service);
    assert service in before + [service];
  }

  lemma RequestedPrefix(checks: Checks, services: seq<Option<Requested>>, n: nat)
    requires n <= |services|
    ensures AllRequestedValid(checks, services) ==> AllRequestedValid(checks, services[..n])
  {
  }

  /** The service loop of `ValidateRenderSubscriptionRequest`. */
  method ValidateRequestedServices(checks: Checks, services: seq<Option<Requested>>) returns (ok: bool)
    ensures ok <==> AllRequestedValid(checks, services) && StrictlySorted(services, LessRequested)
  {
    assert AllRequestedValid(checks, services[..0]);
    hide AllRequestedValid, StrictlySorted, Less;
    RequestedSorted(services);
    var previous := "";
    for index := 0 to |services|
      invariant AllRequestedValid(checks, services[..index])
      invariant forall k :: 0 < k < index ==> LessRequested(services[k - 1], services[k])
      invariant index > 0 ==> previous == RequestedId(services[index - 1])
    {
      var valid := ValidateNextRequested(checks, services[..index], services[index]);
      assert services[..index + 1] == services[..index] + [services[index]];
      if !valid {
        RequestedPrefix(checks, services, index + 1);
        return false;
      }
      if index > 0 && !Less(previous, RequestedId(services[index])) {
        return false;
      }
      previous := RequestedId(services[index]);
    }
    assert services[..|services|] == services;
    ok := true;
  }

  /** `ValidateRenderSubscriptionRequest`. */
  method ValidateRenderSubscriptionRequest(checks: Checks, request: Option<Request>) returns (ok: bool)
    ensures ok <==> AcceptedRequest(checks, request)
  {
    if request == None || !Matches(Uuid(), request.value.authorizationId) || !Matches(Uuid(), request.value.nodeId) {
      return false;
    }
    if |request.value.services| == 0 || |request.value.services| > MAXIMUM_SERVICES {
      return false;
    }
    ok := ValidateRequestedServices(checks, request.value.services);
  }

  /** The response answers the requested services one for one, in order. */
  ghost predicate Answers(checks: Checks, requested: seq<Option<Requested>>, services: seq<Option<Contribution>>) {
    && |services| == |requested|
    && forall i :: 0 <= i < |services| ==>
         services[i].Some? && services[i].value.serviceId == RequestedId(requested[i]) && ValidContribution(checks, services[i].value)
  }

  /** The loop of `ValidateRenderSubscriptionResponse`: its total is the size of everything, never past the budget. */
  method ValidateContributions(checks: Checks, requested: seq<Option<Requested>>, services: seq<Option<Contribution>>)
      returns (ok: bool, total: Accumulator)
    requires |services| == |requested|
    ensures ok <==> Answers(checks, requested, services) && |Concat(Texts(services))| <= MAXIMUM_TOTAL
    ensures ok ==> total == |Concat(Texts(services))|
  {
    hide ValidContribution, Concat, Texts, Size;
    TotalIsLength(services);
    total := 0;
    for index := 0 to |services|
      invariant forall i :: 0 <= i < index ==>
        services[i].Some? && services[i].value.serviceId == RequestedId(requested[i]) && ValidContribution(checks, services[i].value)
      invariant total == Total(services[..index]) && total <= MAXIMUM_TOTAL
    {
      if services[index] == None || services[index].value.serviceId != RequestedId(requested[index]) {
        return false, total;
      }
      var valid;
      valid, total := AddContribution(checks, services[index].value, total);
      SizeIsLength(services[index].value);
      if !valid {
        return false, total;
      }
      assert services[..index + 1][..index] == services[..index];
      if total > MAXIMUM_TOTAL {
        TotalGrows(services, index + 1);
        return false, total;
      }
    }
    assert services[..|services|] == services;
    ok := true;
  }

  /** `ValidateRenderSubscriptionResponse`. */
  method ValidateRenderSubscriptionResponse(checks: Checks, request: Option<Request>, services: Option<seq<Option<Contribution>>>)
      returns (ok: bool)
    ensures ok <==> && AcceptedRequest(checks, request) && services.Some?
                    && Answers(checks, request.value.services, services.value)
                    && |Concat(Texts(services.value))| <= 512 * 1024
  {
    var requestOk := ValidateRenderSubscriptionRequest(checks, request);
    if !requestOk || services == None || |services.value| != |request.value.services| {
      return false;
    }
    var total;
    ok, total := ValidateContributions(checks, request.value.services, services.value);
  }

  /** An accepted response names its services in strictly ascending order, so none is answered twice. */
  lemma AnsweredOnce(checks: Checks, request: Request, services: seq<Option<Contribution>>, i: nat, j: nat)
    requires AcceptedRequest(checks, Some(request)) && Answers(checks, request.services, services)
    requires i < j < |services|
    ensures Less(services[i].value.serviceId, services[j].value.serviceId)
    ensures services[i].value.serviceId != services[j].value.serviceId
  {
    assert LessRequested(request.services[i], request.services[j]);
    LessTotal(services[i].value.serviceId, services[j].value.serviceId);
  }

  /** A full budget and one more contribution stay within the accumulator. */
  lemma MidwayBound(contribution: Contribution, checks: Checks)
    requires ValidContribution(checks, contribution)
    ensures MAXIMUM_TOTAL + Size(contribution) <= MAXIMUM_MIDWAY == 4980736
  {
    BytesBounded(contribution.uris, MAXIMUM_URI);
    BytesBounded(contribution.mihomo, MAXIMUM_FRAGMENT);
    BytesBounded(contribution.singBox, MAXIMUM_FRAGMENT);
  }
}
