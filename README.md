# Call-trace engine and rich-value encoder of the Sentio MCP server

This project models two pure cores of the Sentio MCP server.

**Call traces.** A transaction trace is a tree of call nodes. Each node may
hold an ordered `calls` list, the addresses `from` and `to`, and the failure
markers `error` and `revert`. The model covers the helpers that work on this
tree:

- depth truncation with count-and-flag placeholders (`truncateCallTrace`);
- the node count (`countCalls`);
- the failed calls with their dot-paths (`findFailedCalls`);
- the distinct addresses in first-seen order (`extractContracts`);
- lookup by dot-path (`getCallByPath`);
- the capped summary (`createCallTraceSummary`);
- the metadata records built by the details tool and the full-trace tool.

Every operation is tied to one reference definition. That definition is the
pre-order walk `CallTrace.Walk`, which lists each node with its address (the
child indices leading to it).

**Rich values.** The SQL tool turns a dynamic JavaScript parameter record
into a tagged `RichStruct`. `RichValues` models `toRichStruct`,
`toRichValue` and `toBigInteger`. Its main result is a round trip: every
value that converts reads back as itself.

Modules:

- `Wrappers`: `Option` and `Result`.
- `Numerals`: decimal and lower-case hexadecimal rendering and parsing of
  integers.
- `CallPaths`: dot-paths. They are split on `.`, and each segment is parsed
  as a decimal integer.
- `OrderedSets`: the insertion-ordered JavaScript `Set`, as the class
  `AddressSet`.
- `CallTrace`: the node model, and the specification functions with their
  lemmas.
- `TraceHelpers`: the loop- and accumulator-based helpers, as methods proved
  against those functions.
- `Truncation`: the depth truncator.
- `CallTraceTools`: the records the three call-trace tools return once the
  trace is fetched.
- `RichValues`: the parameter encoder.

The `wasTruncated` flag of the details tool is set whenever the depth is
positive and the call has calls. Truncation changes a call only when some
node on its last kept level made calls (`Truncation.TruncateUnchanged`).
So at depth 2 or more the flag can be set on a call that comes back
unchanged. `CallTraceTools.WasTruncatedOverstates` shows such a call.
The flag is exact at depth 1. The full-trace tool sets its own
`wasTruncated` for every positive depth. Both flags are modelled as
written.

## Model

| member | source | states |
|---|---|---|
| CallPaths.Split | src/tools/debug_simulation_tools.ts:120 | `split('.')` yields at least one piece, no piece holds a dot, and the pieces joined with `.` give back the string (`CallPaths.JoinSplit`) |
| CallPaths.JoinSplit | src/tools/debug_simulation_tools.ts:120 | joining the pieces of `split('.')` with `.` gives back the path, so splitting loses nothing |
| CallPaths.ParseSegment | src/tools/debug_simulation_tools.ts:120 | `parseInt(p, 10)` of one piece, read strictly; `CallPaths.ParseDecimal` proves that every decimal index reads back as itself |
| CallPaths.ChildPath | src/tools/debug_simulation_tools.ts:90 | `${path}.${index}` splits into the pieces of `path` followed by the decimal index |
| CallPaths.SplitPathOf | src/tools/debug_simulation_tools.ts:90 | a path built by appending `.index` per level splits back into its prefix followed by the decimal indices |
| CallPaths.ParsePathOf | src/tools/debug_simulation_tools.ts:120 | the path `"0"` followed by an address's indices parses back to root marker 0 followed by exactly those indices |
| CallPaths.ParseDecimal | src/tools/debug_simulation_tools.ts:120 | a decimal index written into a path parses back to the same number |
| Numerals.NatToString | src/tools/debug_simulation_tools.ts:90 | a number renders as a non-empty digit string with no leading zero |
| Numerals.DigitChar | src/tools/data_tools.ts:210 | each digit below 16 has a character that reads back as that digit |
| Numerals.IntToString | src/tools/data_tools.ts:210 | the rendering is non-empty and starts with `-` exactly when the integer is negative |
| Numerals.DigitsValueOfNatToString | src/tools/data_tools.ts:210 | the digits of a rendering denote the number rendered, in base 10 and base 16 |
| Numerals.ParseIntToString | src/tools/data_tools.ts:210 | `toString(base)` of any integer, sign included, reads back as that integer |
| OrderedSets.InsertAllMembers | src/tools/debug_simulation_tools.ts:104-105 | adding elements one by one keeps a duplicate-free sequence duplicate-free, keeps the old members as a prefix, and its members are exactly the old ones plus the added ones |
| OrderedSets.InsertAllAppend | src/tools/debug_simulation_tools.ts:104-108 | adding two runs of elements one after the other is adding their concatenation |
| OrderedSets.DedupOrder | src/tools/debug_simulation_tools.ts:99 | the set built from a sequence has no duplicates, has exactly its elements, and lists them in order of first occurrence |
| OrderedSets.AddressSet.constructor | src/tools/debug_simulation_tools.ts:99 | a new set is empty |
| OrderedSets.AddressSet.Add | src/tools/debug_simulation_tools.ts:104-105 | `add` appends an element not yet present and leaves the set unchanged otherwise; the set never holds a duplicate |
| CallTrace.GetCallRoot | src/tools/debug_simulation_tools.ts:123-141 | the path `"0"` finds the root |
| CallTrace.ResolveIsDescend | src/tools/debug_simulation_tools.ts:130-138 | following an address index by index is following its segments with the loop's range checks |
| CallTrace.ResolveChild | src/tools/debug_simulation_tools.ts:133-137 | an address starting with index `i` leads into call `i` when there is one, and to nothing otherwise |
| CallTrace.GetCallOfPath | src/tools/debug_simulation_tools.ts:117-141 | the dot-path of an address finds exactly the node at that address, or nothing when no node is there |
| CallTrace.DescendFound | src/tools/debug_simulation_tools.ts:130-138 | a segment list that finds a node consists of in-range indices, that is, it is the address of that node |
| CallTrace.WalkResolves | src/tools/debug_simulation_tools.ts:88-92 | every visit of the pre-order walk names an address that leads to the visited node |
| CallTrace.WalkComplete | src/tools/debug_simulation_tools.ts:88-92 | every node reachable by an address is visited by the walk at that address |
| CallTrace.WalkCallsMember | src/tools/debug_simulation_tools.ts:88-92 | every visit in the walk of a call list comes from the walk of one call, under that call's index |
| CallTrace.UnderInWalkCalls | src/tools/debug_simulation_tools.ts:88-92 | every visit of one call's walk appears, under its index, in the walk of the list |
| CallTrace.SizeIsWalkLength | src/tools/debug_simulation_tools.ts:60-69 | the recursive count is the number of nodes the walk visits |
| CallTrace.SizeAboveOne | src/tools/debug_simulation_tools.ts:60-69 | every node counts at least 1, and more than 1 exactly when it has calls |
| CallTrace.FailedCallsFollowWalk | src/tools/debug_simulation_tools.ts:72-95 | the failed calls are the failed nodes of the pre-order walk, in walk order, each with the path of its address |
| CallTrace.FailuresMember | src/tools/debug_simulation_tools.ts:77-86 | every entry of a walk's failure list is the entry of a failed visit, with that visit's path |
| CallTrace.FailuresContain | src/tools/debug_simulation_tools.ts:77-86 | every failed visit of a walk has its entry in the walk's failure list |
| CallTrace.PathOfCons | src/tools/debug_simulation_tools.ts:90 | the path of an address starting with `i` is the path of the rest below `${path}.${i}` |
| CallTrace.FailuresEmpty | src/tools/debug_simulation_tools.ts:72-95 | no failed call is listed exactly when no node of the walk has `error` or `revert` |
| CallTrace.FailedCallsBound | src/tools/debug_simulation_tools.ts:72-95 | there are never more failed calls than nodes |
| CallTrace.FailedPathsResolve | src/tools/debug_simulation_tools.ts:117-141 | the path of every listed failure finds, under `getCallByPath`, a failed node whose entry is that failure |
| CallTrace.FailedCallsComplete | src/tools/debug_simulation_tools.ts:72-95 | every failed node of the tree is listed under the path of its address |
| CallTrace.GetCallFindsTreeNode | src/tools/debug_simulation_tools.ts:117-141 | a node found by a path is a node of the tree, visited by the walk |
| CallTrace.AddressesOfKids | src/tools/debug_simulation_tools.ts:101-110 | a node contributes its own truthy `from` and `to`, then the addresses of its calls in order |
| CallTrace.AddressesFollowWalk | src/tools/debug_simulation_tools.ts:101-110 | the traversal sees the addresses of the nodes in pre-order |
| CallTrace.AddressListFollowsWalk | src/tools/debug_simulation_tools.ts:107-108 | the addresses the calls contribute are those of the walk of the call list, in order |
| CallTrace.ContractsOfWalk | src/tools/debug_simulation_tools.ts:98-114 | the contracts have no duplicates, are exactly the truthy `from`/`to` of all nodes, and come in first-encounter pre-order |
| TraceHelpers.CountCalls | src/tools/debug_simulation_tools.ts:60-69 | the accumulated count equals the number of nodes and the length of the walk |
| TraceHelpers.FindFailedCalls | src/tools/debug_simulation_tools.ts:72-95 | the pushed entries are exactly the failed-call list specified by `FailedCalls` |
| TraceHelpers.Traverse | src/tools/debug_simulation_tools.ts:101-110 | the traversal adds the subtree's addresses to the set in pre-order, and the set stays duplicate-free |
| TraceHelpers.ExtractContracts | src/tools/debug_simulation_tools.ts:98-114 | the set's contents are the deduplicated addresses, with no duplicates, and hold exactly the tree's truthy addresses |
| TraceHelpers.GetCallByPath | src/tools/debug_simulation_tools.ts:117-141 | the loop finds what the path specification finds, and anything it finds is a node of the tree |
| Truncation.Truncate | src/tools/debug_simulation_tools.ts:36-57 | all fields but `calls` and the markers are kept; at or past the limit the node is returned as is, as is a node without calls; on the boundary level a node with calls gets `calls = []`, its child count and `nestedCallsOmitted = true` |
| Truncation.TruncateAboveBoundary | src/tools/debug_simulation_tools.ts:49-52 | above the boundary the markers are untouched and the calls are truncated one level deeper |
| Truncation.TruncateResolve | src/tools/debug_simulation_tools.ts:36-57 | within the limit an address finds a node in the copy exactly when it finds one in the original, and finds its truncation; deeper addresses find nothing |
| Truncation.TruncateResolveWithin | src/tools/debug_simulation_tools.ts:41-52 | an address shorter than the remaining depth finds in the copy the truncation of what it finds in the original, and nothing when the original has nothing there |
| Truncation.TruncateResolveBeyond | src/tools/debug_simulation_tools.ts:43-48 | an address that reaches the limit or goes past it finds nothing in the copy |
| Truncation.TruncateBoundaryResolve | src/tools/debug_simulation_tools.ts:43-48 | below a node on the last kept level the copy holds no call at any index |
| Truncation.TruncateOutOfRange | src/tools/debug_simulation_tools.ts:49-52 | above the boundary an index past the calls finds nothing in the copy or in the original |
| Truncation.TruncateFound | src/tools/debug_simulation_tools.ts:36-57 | truncating a found node keeps it found, and keeps its fields other than the calls and markers |
| Truncation.TruncateChild | src/tools/debug_simulation_tools.ts:49-52 | above the boundary, lookup through call `i` of the copy is lookup in call `i`'s own truncation one level deeper, as lookup through `i` in the original is lookup in call `i` |
| Truncation.TruncateUnchanged | src/tools/debug_simulation_tools.ts:43-48 | truncation leaves a tree unchanged exactly when no node on its last kept level made calls |
| Truncation.TruncatedDepthBound | src/tools/debug_simulation_tools.ts:36-57 | no node of a copy truncated to `maxDepth >= 1` lies `maxDepth` or more levels deep |
| Truncation.TruncateKeepsShallowNodes | src/tools/debug_simulation_tools.ts:41-48 | a node within the limit keeps every field but its calls, and on the last kept level records how many calls it dropped |
| Truncation.TruncateIdempotent | src/tools/debug_simulation_tools.ts:36-57 | truncating a truncated tree again to the same limit changes nothing |
| Truncation.TruncateShrinks | src/tools/debug_simulation_tools.ts:36-57 | a truncated copy never has more nodes than the original |
| CallTraceTools.CreateCallTraceSummary | src/tools/debug_simulation_tools.ts:144-169 | the root's fields with `success` iff neither `error` nor `revert`; the node count; internal calls iff the root has calls; the failed calls in walk order, left out iff no node failed, never more than the nodes, and led by the root when the root failed; the full distinct address count; and the first 20 distinct addresses in first-seen order |
| CallTraceTools.DetailsMetadataOf | src/tools/debug_simulation_tools.ts:252-257 | the child count; nested calls iff the call counts more than one node; `wasTruncated` iff the depth is positive and there are calls; unset only if truncation changes nothing; exact at depth 1; and the copy is unchanged iff no node on the last kept level made calls |
| CallTraceTools.GetCallTraceDetails | src/tools/debug_simulation_tools.ts:239-258 | an error naming the path iff the path finds no call; otherwise the path, the found call truncated to the depth (2 by default, whole for 0 or less) and its metadata; the call is a node of the trace |
| CallTraceTools.GetCallTraceByTransaction | src/tools/debug_simulation_tools.ts:296-304 | the trace truncated to the depth (3 by default, whole for 0 or less); `wasTruncated` and the original node count iff the depth is positive; no node deeper than the limit; unchanged iff no node on the last kept level made calls; never larger than the original |
| CallTraceTools.WasTruncatedOverstates | src/tools/debug_simulation_tools.ts:256 | a root with one leaf call, at depth 2, has `wasTruncated` set and is returned unchanged |
| RichValues.ToBigInteger | src/tools/data_tools.ts:207-212 | `negative` iff the value is below zero, iff the data starts with `-`, and the base-16 data reads back as the value |
| RichValues.ToRichValue | src/tools/data_tools.ts:157-205 | `toRichValue`, case by case; `RichValues.ToRichValueOk` fixes when it succeeds and its errors, `RichValues.RichValueCases` the case each value lands in, and `RichValues.RichValueRoundTrip` that it is invertible |
| RichValues.ToRichList | src/tools/data_tools.ts:195 | `value.map(toRichValue)`; `RichValues.ToRichListOk` proves it converts element by element, in order, failing iff an element fails |
| RichValues.ToRichFields | src/tools/data_tools.ts:153 | the entries mapped through `toRichValue`; `RichValues.ToRichFieldsOk` proves the keys and their order are kept and each value is converted |
| RichValues.ToRichStruct | src/tools/data_tools.ts:148-155 | `toRichStruct`; `RichValues.ToRichStructFields` proves no record gives no struct and a record gives its entries converted |
| RichValues.ToRichValueOk | src/tools/data_tools.ts:157-205 | a value converts iff no `undefined`, function or symbol lies inside it; a failure is "Unsupported value type: " with one of those `typeof` names |
| RichValues.ToRichListOk | src/tools/data_tools.ts:192-198 | an array converts iff all its elements do, into a list of the same length whose elements are the elements' conversions in order |
| RichValues.ToRichFieldsOk | src/tools/data_tools.ts:153 | a record's entries convert iff all their values do, into fields with the same keys in the same order, each holding its value's conversion |
| RichValues.ToRichStructFields | src/tools/data_tools.ts:148-155 | no record gives no struct; a record gives a struct with exactly its keys in order, each value mapped through `toRichValue`, and fails iff one of the values fails |
| RichValues.RichValueRoundTrip | src/tools/data_tools.ts:157-205 | every value that converts reads back from its rich value as itself |
| RichValues.RichValueCases | src/tools/data_tools.ts:157-205 | null becomes `NULL_VALUE` and nothing else does; an integer-valued number becomes `intValue` of the same value, any other number `floatValue`; bigint, Date, array and plain object each map to their own case, and only a plain object becomes a struct |

## Left out

- Tool registration, zod schemas, the REST calls to the debug and data services, re-throwing an upstream error, and the JSON text envelopes are I/O and foreign calls. The tool models start from the fetched trace or from the parameter record.
- A `null` or `undefined` trace or node is not modelled: nodes are always present. For one, `countCalls` returns 0, `findFailedCalls` returns `[]`, `extractContracts` returns an empty set, `getCallByPath` returns `null` and `truncateCallTrace` returns it unchanged. `createCallTraceSummary` throws a `TypeError` when it reads `trace.type`.
- `getCallByPath` reads segments with JavaScript `parseInt`. Its leniency is not modelled: leading blanks, a leading `+` and trailing garbage (`"1abc"` reads as 1) are not accepted, because a segment is parsed as an optionally signed digit string or not at all.
- TraceHelpers.GetCallByPath: a segment that cannot be parsed, or is negative, gives "not found". In the source such an index reads `calls[NaN]` or `calls[-1]`, which is `undefined`. That is also "not found" when it is the last segment, but a later segment then throws a `TypeError`. The model does not tell these two apart.
- A `maxDepth` that is not an integer is not modelled; depths are integers.
- Floating point is abstract: a number is a finite real or one of NaN, +Infinity and -Infinity. The sign of zero and the range of `intValue` are not modelled.
- `Date.toISOString()` is an opaque string. The `RangeError` it raises for an invalid date is not modelled.
- A plain object is the sequence of its `Object.entries`, in that order, so nothing beyond key order is modelled. Other object kinds (`Map`, `RegExp`, boxed primitives) fall under the same case. `Object.fromEntries` keeps that order and those keys.
- TraceHelpers.FindFailedCalls: the method's contract ties its result to `FailedCalls`. The link to the pre-order walk is the separate lemma `CallTrace.FailedCallsFollowWalk`; it is not repeated in the method's contract.
- JavaScript truthiness is modelled for strings only: `error`, `revert`, `from` and `to` are optional strings, truthy when present and not empty. A non-string value there (an error object, `false`, `0`) is not modelled.
- The node fields the helpers never read (decoded function, input, output, ...) are one opaque map of strings, which copies keep unchanged.
- `src/tools/debug_simulation_tools.test.ts` tests an explore tool: slash-separated named paths, a name generator and a shallow `subCallsCount` truncator. `src/tools/debug_simulation_tools.ts` registers no such tool, so there is no code of it to model.
