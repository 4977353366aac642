/** What a node plugin says of itself, and the block sets it is given: `nodeplugin/v1/validate.go`. */
module NodePlugin {
  import opened Text
  import opened Regex
  import opened Patterns
  import opened Sorting
  import opened Keys
  import opened Words
  import Versions

  const API_VERSION := "relayward.node-plugin/v1"
  const RECENT_ACTIVITY := "activity.recent"
  const MAXIMUM_BLOCKS := 16384

  // ----- capabilities -----

  lemma BelowUpTo(values: seq<string>, middle: nat, wanted: string)
    requires middle < |values| && StrictlySorted(values, Less) && Less(values[middle], wanted)
    ensures forall i :: 0 <= i <= middle ==> Less(values[i], wanted)
  {
    hide Less;
    forall i | 0 <= i < middle
      ensures Less(values[i], wanted)
    {
      LessTransitive(values[i], values[middle], wanted);
    }
  }

  lemma NotBelowFrom(values: seq<string>, middle: nat, wanted: string)
    requires middle < |values| && StrictlySorted(values, Less) && !Less(values[middle], wanted)
    ensures forall i :: middle <= i < |values| ==> !Less(values[i], wanted)
  {
    hide Less;
    forall i | middle < i < |values|
      ensures !Less(values[i], wanted)
    {
      if Less(values[i], wanted) { LessTransitive(values[middle], values[i], wanted); }
    }
  }

  /** `sort.SearchStrings`: the first index whose value is not below the wanted one, on a sorted list. */
  method SearchStrings(values: seq<string>, wanted: string) returns (index: nat)
    ensures index <= |values|
    ensures StrictlySorted(values, Less) ==>
              && (forall i :: 0 <= i < index ==> Less(values[i], wanted))
              && (forall i :: index <= i < |values| ==> !Less(values[i], wanted))
  {
    hide StrictlySorted, Less;
    var low, high := 0, |values|;
    while low < high
      invariant 0 <= low <= high <= |values|
      invariant StrictlySorted(values, Less) ==> forall i :: 0 <= i < low ==> Less(values[i], wanted)
      invariant StrictlySorted(values, Less) ==> forall i :: high <= i < |values| ==> !Less(values[i], wanted)
    {
      var middle := (low + high) / 2;
      if Less(values[middle], wanted) {
        if StrictlySorted(values, Less) { BelowUpTo(values, middle, wanted); }
        low := middle + 1;
      } else {
        if StrictlySorted(values, Less) { NotBelowFrom(values, middle, wanted); }
        high := middle;
      }
    }
    index := low;
  }

  /** `HasCapability`: never claims a missing one; on a list in order it is membership. */
  method HasCapability(values: seq<string>, wanted: string) returns (found: bool)
    ensures found ==> wanted in values
    ensures StrictlySorted(values, Less) ==> (found <==> wanted in values)
  {
    var index := SearchStrings(values, wanted);
    found := index < |values| && values[index] == wanted;
    StringsOrdered();
    if StrictlySorted(values, Less) && wanted in values {
      var i :| 0 <= i < |values| && values[i] == wanted;
      assert !Less(values[i], wanted) && i >= index;
    }
  }

  datatype Info = Info(apiVersion: string, pluginId: string, version: string, capabilities: seq<string>, streamId: string)

  predicate ValidCapability(capability: string) {
    |capability| <= 64 && Matches(DottedName(), capability)
  }

  predicate AllCapabilitiesValid(capabilities: seq<string>) {
    forall capability :: capability in capabilities ==> ValidCapability(capability)
  }

  predicate ValidIdentity(info: Info, expectedPlugin: string, expectedVersion: string) {
    && info.apiVersion == API_VERSION
    && |info.pluginId| <= 128 && Matches(PluginId(), info.pluginId)
    && Versions.Validates(info.version)
    && (expectedPlugin != "" ==> info.pluginId == expectedPlugin)
    && (expectedVersion != "" ==> info.version == expectedVersion)
  }

  /** What `ValidateInfoResponse` accepts: in particular a stream ID exactly when recent activity is listed. */
  ghost predicate AcceptedInfo(info: Option<Info>, expectedPlugin: string, expectedVersion: string) {
    && info.Some? && ValidIdentity(info.value, expectedPlugin, expectedVersion)
    && AllCapabilitiesValid(info.value.capabilities) && StrictlySorted(info.value.capabilities, Less)
    && (if RECENT_ACTIVITY in info.value.capabilities then LowerHex(info.value.streamId, 32) else info.value.streamId == "")
  }

  method ValidateNextCapability(ghost before: seq<string>, capability: string) returns (ok: bool)
    requires AllCapabilitiesValid(before)
    ensures ok <==> AllCapabilitiesValid(before + [capability])
  {
    ok := ValidCapability(capability);
    assert capability in before + [capability];
  }

  lemma CapabilitiesPrefix(capabilities: seq<string>, n: nat)
    requires n <= |capabilities|
    ensures AllCapabilitiesValid(capabilities) ==> AllCapabilitiesValid(capabilities[..n])
  {
  }

  /** The capability loop. */
  method ValidateCapabilities(capabilities: seq<string>) returns (ok: bool)
    ensures ok <==> AllCapabilitiesValid(capabilities) && StrictlySorted(capabilities, Less)
  {
    NeighboursSortStrings(capabilities);
    assert AllCapabilitiesValid(capabilities[..0]);
    hide AllCapabilitiesValid, ValidCapability, Matches, StrictlySorted, Less;
    var previous := "";
    for index := 0 to |capabilities|
      invariant AllCapabilitiesValid(capabilities[..index])
      invariant forall k :: 0 < k < index ==> Less(capabilities[k - 1], capabilities[k])
      invariant index > 0 ==> previous == capabilities[index - 1]
    {
      var valid := ValidateNextCapability(capabilities[..index], capabilities[index]);
      assert capabilities[..index + 1] == capabilities[..index] + [capabilities[index]];
      if !valid {
        CapabilitiesPrefix(capabilities, index + 1);
        return false;
      }
      if index > 0 && !Less(previous, capabilities[index]) {
        return false;
      }
      previous := capabilities[index];
    }
    assert capabilities[..|capabilities|] == capabilities;
    ok := true;
  }

  /** `ValidateInfoResponse`. */
  method ValidateInfoResponse(info: Option<Info>, expectedPlugin: string, expectedVersion: string) returns (ok: bool)
    ensures ok <==> AcceptedInfo(info, expectedPlugin, expectedVersion)
  {
    if info == None || !ValidIdentity(info.value, expectedPlugin, expectedVersion) {
      return false;
    }
    var capabilitiesOk := ValidateCapabilities(info.value.capabilities);
    if !capabilitiesOk {
      return false;
    }
    var hasActivity := HasCapability(info.value.capabilities, RECENT_ACTIVITY);
    if hasActivity && !LowerHex(info.value.streamId, 32) {
      return false;
    }
    if !hasActivity && info.value.streamId != "" {
      return false;
    }
    ok := true;
  }

  // ----- dynamic blocks -----

  datatype Block = Block(authorizationId: string, serviceId: string, sourceIp: string, expiresAt: int)

  datatype BlocksRequest = BlocksRequest(policyGeneration: Word, blockRevision: Word, blocks: seq<Option<Block>>)

  function BlockTriple(block: Option<Block>): Triple {
    if block == None then ("", "", "") else (block.value.authorizationId, block.value.serviceId, block.value.sourceIp)
  }

  /** By authorization, then by service, then by address. */
  predicate LessBlock(a: Option<Block>, b: Option<Block>) {
    LessTriple(BlockTriple(a), BlockTriple(b))
  }

  /** The key the loop compares. */
  function BlockKey(block: Option<Block>): string {
    if block == None then ""
    else block.value.authorizationId + "\0" + block.value.serviceId + "\0" + block.value.sourceIp
  }

  /** `canonical` is `net.ParseIP(ip).String() == ip`. */
  predicate ValidBlock(canonical: string -> bool, block: Option<Block>) {
    && block.Some? && Matches(Uuid(), block.value.authorizationId) && Matches(ComponentId(), block.value.serviceId)
    && canonical(block.value.sourceIp) && block.value.expiresAt > 0
  }

  predicate AllBlocksValid(canonical: string -> bool, blocks: seq<Option<Block>>) {
    forall block :: block in blocks ==> ValidBlock(canonical, block)
  }

  /** What `ValidateReplaceDynamicBlocksRequest` accepts: blocks strictly sorted by authorization, service and address. */
  ghost predicate AcceptedBlocks(canonical: string -> bool, request: Option<BlocksRequest>) {
    && request.Some?
    && 1 <= request.value.policyGeneration <= MAXIMUM_INT64 && 1 <= request.value.blockRevision <= MAXIMUM_INT64
    && |request.value.blocks| <= MAXIMUM_BLOCKS && AllBlocksValid(canonical, request.value.blocks)
    && StrictlySorted(request.value.blocks, LessBlock)
  }

  lemma BlocksSorted(blocks: seq<Option<Block>>)
    ensures StrictlySorted(blocks, LessBlock) <==> forall k :: 0 < k < |blocks| ==> LessBlock(blocks[k - 1], blocks[k])
  {
    TriplesOrdered();
    assert forall a: Option<Block>, b: Option<Block> :: LessBlock(a, b) <==> LessTriple(BlockTriple(a), BlockTriple(b));
    NeighboursSort(blocks, LessBlock);
  }

  lemma BlockKeyOrder(canonical: string -> bool, blocks: seq<Option<Block>>, index: nat)
    requires 0 < index < |blocks| && AllBlocksValid(canonical, blocks[..index + 1])
    ensures Less(BlockKey(blocks[index - 1]), BlockKey(blocks[index]))
       <==> LessBlock(blocks[index - 1], blocks[index])
  {
    var a, b := blocks[index - 1], blocks[index];
    assert a == blocks[..index + 1][index - 1] && b == blocks[..index + 1][index];
    NoNulInBlocks(canonical, blocks[..index + 1], a);
    NoNulInBlocks(canonical, blocks[..index + 1], b);
    TripleKeyOrder(BlockTriple(a), BlockTriple(b));
    BlockKeyIs(a);
    BlockKeyIs(b);
  }

  lemma BlockKeyIs(block: Option<Block>)
    requires block.Some?
    ensures BlockKey(block) == TripleKey(BlockTriple(block))
  {
    var first, second, third := block.value.authorizationId, block.value.serviceId, block.value.sourceIp;
    assert first + "\0" + second + "\0" + third == first + "\0" + (second + "\0" + third);
  }

  /** Accepted blocks ascend by authorization, then by service, then by address. */
  lemma AcceptedBlocksAscend(canonical: string -> bool, request: Option<BlocksRequest>, i: nat, j: nat)
    requires AcceptedBlocks(canonical, request) && i < j < |request.value.blocks|
    ensures var first, second := request.value.blocks[i], request.value.blocks[j];
            && first.Some? && second.Some?
            && (Less(first.value.authorizationId, second.value.authorizationId)
                || (first.value.authorizationId == second.value.authorizationId
                    && (Less(first.value.serviceId, second.value.serviceId)
                        || (first.value.serviceId == second.value.serviceId && Less(first.value.sourceIp, second.value.sourceIp)))))
  {
    hide Matches, Less;
    var first, second := request.value.blocks[i], request.value.blocks[j];
    assert LessBlock(first, second) && ValidBlock(canonical, first) && ValidBlock(canonical, second);
  }

  lemma NoNulInBlocks(canonical: string -> bool, blocks: seq<Option<Block>>, block: Option<Block>)
    requires AllBlocksValid(canonical, blocks) && block in blocks
    ensures '\0' !in BlockTriple(block).0 && '\0' !in BlockTriple(block).1
  {
    assert ValidBlock(canonical, block);
    IdentifiersAreClean(block.value.authorizationId, '\0');
    IdentifiersAreClean(block.value.serviceId, '\0');
  }

  method ValidateNextBlock(canonical: string -> bool, ghost before: seq<Option<Block>>, block: Option<Block>) returns (ok: bool)
    requires AllBlocksValid(canonical, before)
    ensures ok <==> AllBlocksValid(canonical, before + [block])
  {
    ok := ValidBlock(canonical, block);
    assert block in before + [block];
  }

  lemma BlocksPrefix(canonical: string -> bool, blocks: seq<Option<Block>>, n: nat)
    requires n <= |blocks|
    ensures AllBlocksValid(canonical, blocks) ==> AllBlocksValid(canonical, blocks[..n])
  {
  }

  /** `ValidateReplaceDynamicBlocksRequest`. */
  method ValidateReplaceDynamicBlocksRequest(canonical: string -> bool, request: Option<BlocksRequest>) returns (ok: bool)
    ensures ok <==> AcceptedBlocks(canonical, request)
  {
    hide ValidBlock, LessBlock, BlockTriple, BlockKey, Less;
    if request == None
      || request.value.policyGeneration == 0 || request.value.policyGeneration > MAXIMUM_INT64
      || request.value.blockRevision == 0 || request.value.blockRevision > MAXIMUM_INT64
      || |request.value.blocks| > MAXIMUM_BLOCKS {
      return false;
    }
    var blocks := request.value.blocks;
    BlocksSorted(blocks);
    var previous := "";
    for index := 0 to |blocks|
      invariant AllBlocksValid(canonical, blocks[..index])
      invariant forall k :: 0 < k < index ==> LessBlock(blocks[k - 1], blocks[k])
      invariant index > 0 ==> previous == BlockKey(blocks[index - 1])
    {
      var valid := ValidateNextBlock(canonical, blocks[..index], blocks[index]);
      assert blocks[..index + 1] == blocks[..index] + [blocks[index]];
      if !valid {
        BlocksPrefix(canonical, blocks, index + 1);
        return false;
      }
      var key := BlockKey(blocks[index]);
      if index > 0 { BlockKeyOrder(canonical, blocks, index); }
      if index > 0 && !Less(previous, key) {
        return false;
      }
      previous := key;
    }
    assert blocks[..|blocks|] == blocks;
    ok := true;
  }
}
