/**
 * The three call-trace tools, after the trace has been fetched: the
 * lightweight summary, the details of one call picked by its path, and the
 * whole trace cut to a depth. Each returns the record the tool serialises.
 */
module CallTraceTools {
  import opened Wrappers
  import opened CallPaths
  import opened OrderedSets
  import opened CallTrace
  import opened Truncation
  import opened TraceHelpers

  /** The summary lists at most this many contract addresses. */
  const CONTRACTS_SHOWN: nat := 20
  /** Depth used by the details tool when none is given. */
  const DEFAULT_DETAILS_DEPTH: int := 2
  /** Depth used by the full-trace tool when none is given. */
  const DEFAULT_TRACE_DEPTH: int := 3

  // ---------------------------------------------------------------------------
  // Summary

  datatype TransactionInfo = TransactionInfo(
    kind: Option<string>,
    from: Option<string>,
    to: Option<string>,
    value: Option<string>,
    gas: Option<int>,
    gasUsed: Option<int>,
    success: bool)

  datatype SummaryCounts = SummaryCounts(
    totalCalls: nat,
    totalGasUsed: Option<int>,
    failedCallsCount: nat,
    contractsInvolvedCount: nat,
    hasInternalCalls: bool)

  /** `failedCalls` is left out of the record (undefined) when nothing failed. */
  datatype CallTraceSummary = CallTraceSummary(
    transaction: TransactionInfo,
    summary: SummaryCounts,
    failedCalls: Option<seq<FailedCall>>,
    contractsInvolved: seq<string>)

  function Min(a: nat, b: nat): nat {
    if a < b then a else b
  }

  /**
   * `createCallTraceSummary(trace)`: the root's own fields, the number of
   * nodes, the failed calls in walk order (or none at all), and the first 20
   * distinct contract addresses in first-seen order with the full count.
   */
  method CreateCallTraceSummary(t: Node) returns (r: CallTraceSummary)
    ensures r.transaction == TransactionInfo(t.kind, t.from, t.to, t.value, t.gas, t.gasUsed, !Failed(t))
    ensures r.summary.totalCalls == Size(t) == |Walk(t)|
    ensures r.summary.totalGasUsed == t.gasUsed
    ensures r.summary.hasInternalCalls <==> |Kids(t)| > 0
    ensures r.summary.failedCallsCount == |FailedCalls(t, ROOT_PATH)| <= r.summary.totalCalls
    ensures r.failedCalls.None? <==> forall k :: 0 <= k < |Walk(t)| ==> !Failed(Walk(t)[k].node)
    ensures r.failedCalls.Some? ==> r.failedCalls.value == FailedCalls(t, ROOT_PATH)
    ensures !r.transaction.success ==>
              r.failedCalls.Some? && r.failedCalls.value[0] == FailureEntry(ROOT_PATH, t)
    ensures r.summary.contractsInvolvedCount == |Contracts(t)|
    ensures r.contractsInvolved == Contracts(t)[..Min(CONTRACTS_SHOWN, |Contracts(t)|)]
    ensures |r.contractsInvolved| <= CONTRACTS_SHOWN && NoDup(r.contractsInvolved)
    ensures forall x :: x in r.contractsInvolved ==> x in Addresses(t)
  {
    var totalCalls := CountCalls(t);
    var failed := FindFailedCalls(t, ROOT_PATH);
    var contracts := ExtractContracts(t);
    SizeAboveOne(t);
    FailedCallsBound(t, ROOT_PATH);
    FailedCallsFollowWalk(t, ROOT_PATH);
    FailuresEmpty(Walk(t), ROOT_PATH);
    var shown := contracts[..Min(CONTRACTS_SHOWN, |contracts|)];
    assert forall x :: x in shown ==> x in contracts;
    r := CallTraceSummary(
      TransactionInfo(t.kind, t.from, t.to, t.value, t.gas, t.gasUsed, !Failed(t)),
      SummaryCounts(totalCalls, t.gasUsed, |failed|, |contracts|, totalCalls > 1),
      if |failed| > 0 then Some(failed) else None,
      shown);
  }

  // ---------------------------------------------------------------------------
  // Details of one call

  datatype DetailsMetadata = DetailsMetadata(
    hasNestedCalls: bool,
    nestedCallsCount: nat,
    maxDepthApplied: int,
    wasTruncated: bool)

  /**
   * The metadata the details tool attaches to the call it found. The flag
   * `wasTruncated` is exact at depth 1; at deeper limits it can be set on a
   * call that truncation leaves as it is (see `WasTruncatedOverstates`).
   */
  function DetailsMetadataOf(target: Node, depth: int): (m: DetailsMetadata)
    ensures m.nestedCallsCount == |Kids(target)|
    ensures m.hasNestedCalls <==> Size(target) > 1
    ensures m.maxDepthApplied == depth
    ensures m.wasTruncated <==> depth > 0 && m.hasNestedCalls
    ensures !m.wasTruncated ==> Truncate(target, depth, 0) == target
    ensures depth == 1 ==> (m.wasTruncated <==> Truncate(target, depth, 0) != target)
    ensures depth > 0 ==> (Truncate(target, depth, 0) == target <==> NoCallsAt(target, depth - 1))
  {
    SizeAboveOne(target);
    var has := target.calls.Array? && |target.calls.items| > 0;
    var m := DetailsMetadata(has, |Kids(target)|, depth, depth > 0 && has);
    if depth > 0 then TruncateUnchanged(target, depth, 0); m else m
  }

  datatype CallDetails = CallDetails(path: string, call: Node, metadata: DetailsMetadata)

  function NotFoundMessage(callPath: string): string {
    "Call path '" + callPath + "' not found in trace. Verify path from getCallTraceSummary."
  }

  /**
   * The details tool: find the call at `callPath` (an error naming the path
   * when there is none), then cut it to `maxDepth` levels, 2 by default;
   * a depth of 0 or less leaves it whole.
   */
  method GetCallTraceDetails(trace: Node, callPath: string, maxDepth: Option<int>)
    returns (r: Result<CallDetails, string>)
    ensures r.Err? <==> GetCall(trace, callPath).None?
    ensures r.Err? ==> r.error == NotFoundMessage(callPath)
    ensures r.Ok? ==>
              var depth := maxDepth.GetOr(DEFAULT_DETAILS_DEPTH);
              var target := GetCall(trace, callPath).value;
              r.value.path == callPath
              && r.value.call == Truncate(target, depth, 0)
              && (depth <= 0 ==> r.value.call == target)
              && r.value.metadata == DetailsMetadataOf(target, depth)
    ensures r.Ok? ==> exists address: seq<nat> :: Visit(address, GetCall(trace, callPath).value) in Walk(trace)
  {
    var targetCall := GetCallByPath(trace, callPath);
    if targetCall.None? {
      return Err(NotFoundMessage(callPath));
    }
    var target := targetCall.value;
    var depth := maxDepth.GetOr(DEFAULT_DETAILS_DEPTH);
    var truncatedCall := if depth == 0 then target else Truncate(target, depth, 0);
    r := Ok(CallDetails(callPath, truncatedCall, DetailsMetadataOf(target, depth)));
  }

  // ---------------------------------------------------------------------------
  // The whole trace

  /** `totalCallsInOriginal` is undefined when nothing was cut. */
  datatype TraceMetadata = TraceMetadata(
    maxDepthApplied: int,
    wasTruncated: bool,
    totalCallsInOriginal: Option<nat>)

  datatype TraceView = TraceView(metadata: TraceMetadata, trace: Node)

  /**
   * The full-trace tool: the trace cut to `maxDepth` levels, 3 by default,
   * or whole for 0 (or less); when a limit applies, the number of nodes of
   * the uncut trace comes along.
   */
  method GetCallTraceByTransaction(data: Node, maxDepth: Option<int>) returns (r: TraceView)
    ensures var depth := maxDepth.GetOr(DEFAULT_TRACE_DEPTH);
            r.trace == Truncate(data, depth, 0)
            && r.metadata.maxDepthApplied == depth
            && (r.metadata.wasTruncated <==> depth > 0)
            && (r.metadata.totalCallsInOriginal.Some? <==> depth > 0)
            && (depth > 0 ==> r.metadata.totalCallsInOriginal == Some(Size(data)))
            && (depth <= 0 ==> r.trace == data)
            && (depth > 0 ==> (r.trace == data <==> NoCallsAt(data, depth - 1)))
            && (depth > 0 ==> forall k :: 0 <= k < |Walk(r.trace)| ==> |Walk(r.trace)[k].address| < depth)
    ensures Size(r.trace) <= Size(data)
  {
    var depth := maxDepth.GetOr(DEFAULT_TRACE_DEPTH);
    var result := if depth == 0 then data else Truncate(data, depth, 0);
    var total: Option<nat> := None;
    if depth > 0 {
      var n := CountCalls(data);
      total := Some(n);
      TruncatedDepthBound(data, depth);
      TruncateUnchanged(data, depth, 0);
    }
    TruncateShrinks(data, depth, 0);
    r := TraceView(TraceMetadata(depth, depth > 0, total), result);
  }

  /**
   * `wasTruncated` of the details tool overstates: a root whose one call is
   * a leaf, cut to two levels, comes back unchanged with the flag set.
   */
  lemma WasTruncatedOverstates()
    ensures var leaf := Node(None, None, None, None, None, None, None, None, Array([]), None, None, map[]);
            var root := leaf.(calls := Array([leaf]));
            DetailsMetadataOf(root, 2).wasTruncated && Truncate(root, 2, 0) == root
  {
    var leaf := Node(None, None, None, None, None, None, None, None, Array([]), None, None, map[]);
    var root := leaf.(calls := Array([leaf]));
    assert TruncateAll([leaf], 2, 1) == [leaf];
  }
}
