/**
 * The call trace of a transaction: a tree of call nodes, each with an ordered
 * list of the calls it made. This module holds the data model and the
 * functions that specify the trace helpers: lookup by numeric path, node
 * count, failed calls with their paths, and the addresses taking part, all
 * tied to one reference definition, the pre-order walk of the tree.
 */
module CallTrace {
  import opened Wrappers
  import opened CallPaths
  import opened OrderedSets

  /**
   * The `calls` field of a node. Every helper asks `Array.isArray(node.calls)`,
   * so a value that is present but no array behaves like an absent one, except
   * that a copy of the node keeps it.
   */
  datatype Calls = Absent | NonArray | Array(items: seq<Node>)

  /**
   * One call of the trace. `kind` is the JSON field `type`. `error` and
   * `revert`, when truthy, mark a failed call. `nestedCallsCount` and
   * `nestedCallsOmitted` are the markers a truncated copy carries. `other`
   * stands for every further field (decoded function name, input, output,
   * ...), which the helpers copy without looking at it.
   */
  datatype Node = Node(
    kind: Option<string>,
    from: Option<string>,
    to: Option<string>,
    value: Option<string>,
    gas: Option<int>,
    gasUsed: Option<int>,
    error: Option<string>,
    revert: Option<string>,
    calls: Calls,
    nestedCallsCount: Option<nat>,
    nestedCallsOmitted: Option<bool>,
    other: map<string, string>)

  /** JavaScript truthiness of an optional string field: present and not empty. */
  predicate Truthy(field: Option<string>) {
    field.Some? && field.value != ""
  }

  /** `trace.error || trace.revert`. */
  predicate Failed(t: Node) {
    Truthy(t.error) || Truthy(t.revert)
  }

  /** The calls a node made, or none when `calls` is no array. */
  function Kids(t: Node): seq<Node> {
    if t.calls.Array? then t.calls.items else []
  }

  // ---------------------------------------------------------------------------
  // Lookup by path

  /**
   * Follows `calls[index]` one segment at a time. A level whose `calls` is no
   * array, an index at or past the end, and a negative or unparsable segment
   * all end the walk without a node.
   */
  function Descend(t: Node, segments: seq<Option<int>>): Option<Node>
    decreases |segments|
  {
    if segments == [] then Some(t)
    else
      match t.calls
      case Array(cs) =>
        if segments[0].Some? && 0 <= segments[0].value < |cs| then Descend(cs[segments[0].value], segments[1..])
        else None
      case _ => None
  }

  /** `getCallByPath(trace, path)`: the first segment must be 0, the root. */
  function GetCall(t: Node, path: string): Option<Node> {
    var parts := ParsePath(path);
    if parts[0] != Some(0) then None else Descend(t, parts[1..])
  }

  /** The node at a sequence of child indices. */
  function Resolve(t: Node, address: seq<nat>): Option<Node>
    decreases |address|
  {
    if address == [] then Some(t)
    else if address[0] < |Kids(t)| then Resolve(Kids(t)[address[0]], address[1..])
    else None
  }

  /** Following an address is following its indices as path segments. */
  lemma {:induction false} ResolveIsDescend(t: Node, address: seq<nat>)
    ensures Resolve(t, address) == Descend(t, Segments(address))
    decreases |address|
  {
    if address != [] {
      assert Segments(address)[1..] == Segments(address[1..]);
      if address[0] < |Kids(t)| {
        ResolveIsDescend(Kids(t)[address[0]], address[1..]);
      }
    }
  }

  lemma ResolveChild(t: Node, i: nat, address: seq<nat>)
    ensures Resolve(t, [i] + address)
         == if i < |Kids(t)| then Resolve(Kids(t)[i], address) else None
  {
    assert ([i] + address)[1..] == address;
  }

  /** The path string of an address resolves to the node at that address. */
  lemma GetCallOfPath(t: Node, address: seq<nat>)
    ensures GetCall(t, PathOf(ROOT_PATH, address)) == Resolve(t, address)
  {
    ParsePathOf(address);
    var parts := ParsePath(PathOf(ROOT_PATH, address));
    assert parts[1..] == Segments(address);
    ResolveIsDescend(t, address);
  }

  /** Path `"0"` is the root itself. */
  lemma GetCallRoot(t: Node)
    ensures GetCall(t, ROOT_PATH) == Some(t)
  {
    GetCallOfPath(t, []);
  }

  /**
   * A path that resolves names an address of the tree: every segment after
   * the root is an in-range index, and there is no nearest-node fallback.
   */
  lemma {:induction false} DescendFound(t: Node, segments: seq<Option<int>>)
    requires Descend(t, segments).Some?
    ensures exists address: seq<nat> :: segments == Segments(address) && Resolve(t, address) == Descend(t, segments)
    decreases |segments|
  {
    if segments == [] {
      assert segments == Segments([]);
      ResolveIsDescend(t, []);
    } else {
      var i: nat := segments[0].value;
      var child := t.calls.items[i];
      DescendFound(child, segments[1..]);
      var rest: seq<nat> :| segments[1..] == Segments(rest) && Resolve(child, rest) == Descend(child, segments[1..]);
      ResolveChild(t, i, rest);
      assert segments == Segments([i] + rest);
      ResolveIsDescend(t, [i] + rest);
    }
  }

  // ---------------------------------------------------------------------------
  // The pre-order walk: the reference definition

  /** A node together with the child indices that lead to it from the root. */
  datatype Visit = Visit(address: seq<nat>, node: Node)

  /**
   * Every node of the tree in pre-order: a node before its calls, the calls
   * left to right.
   */
  function Walk(t: Node): (w: seq<Visit>)
    ensures |w| >= 1 && w[0] == Visit([], t)
  {
    match t.calls
    case Array(cs) => [Visit([], t)] + WalkCalls(cs)
    case _ => [Visit([], t)]
  }

  /** The walks of a list of calls, each placed under its index. */
  function WalkCalls(cs: seq<Node>): seq<Visit> {
    if cs == [] then []
    else WalkCalls(cs[..|cs| - 1]) + Under(|cs| - 1, Walk(cs[|cs| - 1]))
  }

  /** The visits of a subtree, seen from its parent: each address gains the leading index `i`. */
  function Under(i: nat, w: seq<Visit>): (r: seq<Visit>)
    ensures |r| == |w|
    ensures forall k {:trigger r[k]} :: 0 <= k < |w| ==> r[k] == Visit([i] + w[k].address, w[k].node)
  {
    seq(|w|, k requires 0 <= k < |w| => Visit([i] + w[k].address, w[k].node))
  }

  /** Every visit of a list's walk comes from the walk of one of the calls. */
  lemma {:induction false} WalkCallsMember(cs: seq<Node>, j: nat)
    requires j < |WalkCalls(cs)|
    ensures exists i, k :: 0 <= i < |cs| && 0 <= k < |Walk(cs[i])|
              && WalkCalls(cs)[j] == Visit([i] + Walk(cs[i])[k].address, Walk(cs[i])[k].node)
    decreases |cs|
  {
    var n := |cs| - 1;
    var init := cs[..n];
    if j < |WalkCalls(init)| {
      WalkCallsMember(init, j);
      var i, k :| 0 <= i < |init| && 0 <= k < |Walk(init[i])|
              && WalkCalls(init)[j] == Visit([i] + Walk(init[i])[k].address, Walk(init[i])[k].node);
      assert init[i] == cs[i];
    } else {
      var k := j - |WalkCalls(init)|;
      assert WalkCalls(cs)[j] == Under(n, Walk(cs[n]))[k];
    }
  }

  /** Every visit of the walk of the call at index `i` shows up, under `i`, in the list's walk. */
  lemma {:induction false} UnderInWalkCalls(cs: seq<Node>, i: nat, v: Visit)
    requires i < |cs| && v in Walk(cs[i])
    ensures Visit([i] + v.address, v.node) in WalkCalls(cs)
    decreases |cs|
  {
    var n := |cs| - 1;
    var k :| 0 <= k < |Walk(cs[i])| && Walk(cs[i])[k] == v;
    if i < n {
      assert cs[..n][i] == cs[i];
      UnderInWalkCalls(cs[..n], i, v);
    } else {
      assert Under(n, Walk(cs[n]))[k] == Visit([i] + v.address, v.node);
    }
  }

  /** Soundness of the walk: each visit's address resolves to the visit's node. */
  lemma {:induction false} WalkResolves(t: Node)
    ensures forall k :: 0 <= k < |Walk(t)| ==> Resolve(t, Walk(t)[k].address) == Some(Walk(t)[k].node)
    decreases t
  {
    var w := Walk(t);
    forall k | 0 <= k < |w|
      ensures Resolve(t, w[k].address) == Some(w[k].node)
    {
      if k == 0 {
        assert Resolve(t, []) == Some(t);
      } else {
        var cs := t.calls.items;
        assert w[k] == WalkCalls(cs)[k - 1];
        WalkCallsMember(cs, k - 1);
        var i, m :| 0 <= i < |cs| && 0 <= m < |Walk(cs[i])|
                && WalkCalls(cs)[k - 1] == Visit([i] + Walk(cs[i])[m].address, Walk(cs[i])[m].node);
        var v := Walk(cs[i])[m];
        WalkResolves(cs[i]);
        assert Resolve(cs[i], v.address) == Some(v.node);
        ResolveChild(t, i, v.address);
      }
    }
  }

  /** Completeness of the walk: the node at every address that resolves is visited. */
  lemma {:induction false} WalkComplete(t: Node, address: seq<nat>)
    requires Resolve(t, address).Some?
    ensures Visit(address, Resolve(t, address).value) in Walk(t)
    decreases |address|
  {
    if address == [] {
      assert Walk(t)[0] == Visit([], t);
    } else {
      var i := address[0];
      var rest := address[1..];
      assert address == [i] + rest;
      ResolveChild(t, i, rest);
      var cs := t.calls.items;
      WalkComplete(cs[i], rest);
      UnderInWalkCalls(cs, i, Visit(rest, Resolve(cs[i], rest).value));
    }
  }

  // ---------------------------------------------------------------------------
  // Node count

  /** `countCalls`: the node and all the nodes below it. */
  function Size(t: Node): nat {
    match t.calls
    case Array(cs) => 1 + SizeList(cs)
    case _ => 1
  }

  function SizeList(cs: seq<Node>): nat {
    if cs == [] then 0 else SizeList(cs[..|cs| - 1]) + Size(cs[|cs| - 1])
  }

  /** The count is the number of nodes the walk visits. */
  lemma {:induction false} SizeIsWalkLength(t: Node)
    ensures Size(t) == |Walk(t)|
    decreases t, 1
  {
    match t.calls
    case Array(cs) => SizeListIsWalkLength(cs);
    case _ =>
  }

  lemma {:induction false} SizeListIsWalkLength(cs: seq<Node>)
    ensures SizeList(cs) == |WalkCalls(cs)|
    decreases cs, 0
  {
    if cs != [] {
      SizeListIsWalkLength(cs[..|cs| - 1]);
      SizeIsWalkLength(cs[|cs| - 1]);
    }
  }

  /**
   * A node counts at least itself, and it counts more than itself exactly
   * when it made calls: `hasInternalCalls` is `totalCalls > 1`.
   */
  lemma {:induction false} SizeAboveOne(t: Node)
    ensures Size(t) >= 1
    ensures Size(t) > 1 <==> |Kids(t)| > 0
  {
    match t.calls
    case Array(cs) =>
      if cs != [] {
        SizeIsWalkLength(cs[|cs| - 1]);
      }
    case _ =>
  }

  /** Above a node's own 1, the count is the sum of its calls' counts, taken left to right. */
  lemma SizeListSnoc(cs: seq<Node>, c: Node)
    ensures SizeList(cs + [c]) == SizeList(cs) + Size(c)
  {
    assert (cs + [c])[..|cs|] == cs;
  }

  // ---------------------------------------------------------------------------
  // Failed calls

  /** One entry of `findFailedCalls`. `error` is `trace.error || trace.revert`. */
  datatype FailedCall = FailedCall(
    path: string,
    kind: Option<string>,
    from: Option<string>,
    to: Option<string>,
    error: Option<string>,
    gasUsed: Option<int>)

  function FailureEntry(path: string, t: Node): FailedCall {
    FailedCall(path, t.kind, t.from, t.to, if Truthy(t.error) then t.error else t.revert, t.gasUsed)
  }

  /** `findFailedCalls(trace, path)`: the node's own entry, then those of its calls, in order. */
  function FailedCalls(t: Node, path: string): seq<FailedCall> {
    (if Failed(t) then [FailureEntry(path, t)] else [])
    + match t.calls
      case Array(cs) => FailedList(cs, path)
      case _ => []
  }

  function FailedList(cs: seq<Node>, path: string): seq<FailedCall> {
    if cs == [] then []
    else FailedList(cs[..|cs| - 1], path) + FailedCalls(cs[|cs| - 1], ChildPath(path, |cs| - 1))
  }

  lemma AppendAssoc<T>(a: seq<T>, b: seq<T>, c: seq<T>)
    ensures (a + b) + c == a + (b + c)
  {
  }

  /** One more call at the end of a list adds that call's entries under its index. */
  lemma FailedListSnoc(cs: seq<Node>, i: nat, path: string)
    requires i < |cs|
    ensures FailedList(cs[..i + 1], path) == FailedList(cs[..i], path) + FailedCalls(cs[i], ChildPath(path, i))
  {
    assert cs[..i + 1][..i] == cs[..i];
  }

  /** A node's entries are its own, then those of its calls. */
  lemma FailedCallsOfKids(t: Node, path: string)
    ensures FailedCalls(t, path) == (if Failed(t) then [FailureEntry(path, t)] else []) + FailedList(Kids(t), path)
  {
    if !t.calls.Array? {
      assert FailedList([], path) == [];
    }
  }

  /** The entries for the failed visits of a walk, in walk order, with paths below `prefix`. */
  function Failures(w: seq<Visit>, prefix: string): (r: seq<FailedCall>)
    ensures |r| <= |w|
  {
    if w == [] then []
    else
      var v := w[|w| - 1];
      Failures(w[..|w| - 1], prefix)
      + if Failed(v.node) then [FailureEntry(PathOf(prefix, v.address), v.node)] else []
  }

  lemma {:induction false} FailuresAppend(w1: seq<Visit>, w2: seq<Visit>, prefix: string)
    ensures Failures(w1 + w2, prefix) == Failures(w1, prefix) + Failures(w2, prefix)
    decreases |w2|
  {
    if w2 == [] {
      assert w1 + w2 == w1;
    } else {
      var w2' := w2[..|w2| - 1];
      assert (w1 + w2)[..|w1 + w2| - 1] == w1 + w2';
      FailuresAppend(w1, w2', prefix);
    }
  }

  lemma {:induction false} PathOfCons(prefix: string, i: nat, address: seq<nat>)
    ensures PathOf(prefix, [i] + address) == PathOf(ChildPath(prefix, i), address)
    decreases |address|
  {
    var whole := [i] + address;
    if address == [] {
      assert whole[..0] == [];
    } else {
      var n := |address| - 1;
      var init := address[..n];
      assert whole[..|whole| - 1] == [i] + init;
      assert whole[|whole| - 1] == address[n];
      PathOfCons(prefix, i, init);
      assert PathOf(prefix, whole) == ChildPath(PathOf(prefix, [i] + init), address[n]);
    }
  }

  lemma {:induction false} FailuresUnder(i: nat, w: seq<Visit>, prefix: string)
    ensures Failures(Under(i, w), prefix) == Failures(w, ChildPath(prefix, i))
    decreases |w|
  {
    if w != [] {
      var init := w[..|w| - 1];
      assert Under(i, w)[..|w| - 1] == Under(i, init);
      FailuresUnder(i, init, prefix);
      PathOfCons(prefix, i, w[|w| - 1].address);
    }
  }

  /**
   * `findFailedCalls` lists exactly the failed nodes, in pre-order, each with
   * the path of its address.
   */
  lemma {:induction false} FailedCallsFollowWalk(t: Node, path: string)
    ensures FailedCalls(t, path) == Failures(Walk(t), path)
    decreases t, 1
  {
    match t.calls
    case Array(cs) =>
      FailedListFollowWalk(cs, path);
      FailuresAppend([Visit([], t)], WalkCalls(cs), path);
      assert Failures([Visit([], t)], path) == (if Failed(t) then [FailureEntry(path, t)] else []);
    case _ =>
      assert Failures([Visit([], t)], path) == (if Failed(t) then [FailureEntry(path, t)] else []);
  }

  lemma {:induction false} FailedListFollowWalk(cs: seq<Node>, path: string)
    ensures FailedList(cs, path) == Failures(WalkCalls(cs), path)
    decreases cs, 0
  {
    if cs != [] {
      var n := |cs| - 1;
      FailedListFollowWalk(cs[..n], path);
      FailedCallsFollowWalk(cs[n], ChildPath(path, n));
      FailuresAppend(WalkCalls(cs[..n]), Under(n, Walk(cs[n])), path);
      FailuresUnder(n, Walk(cs[n]), path);
    }
  }

  /** Each entry of the failures comes from a failed visit. */
  lemma {:induction false} FailuresMember(w: seq<Visit>, prefix: string, e: FailedCall)
    requires e in Failures(w, prefix)
    ensures exists j :: 0 <= j < |w| && Failed(w[j].node) && e == FailureEntry(PathOf(prefix, w[j].address), w[j].node)
    decreases |w|
  {
    var n := |w| - 1;
    if e in Failures(w[..n], prefix) {
      FailuresMember(w[..n], prefix, e);
      var j :| 0 <= j < n && Failed(w[..n][j].node) && e == FailureEntry(PathOf(prefix, w[..n][j].address), w[..n][j].node);
      assert w[..n][j] == w[j];
    }
  }

  /** Each failed visit has its entry among the failures. */
  lemma {:induction false} FailuresContain(w: seq<Visit>, prefix: string, j: nat)
    requires j < |w| && Failed(w[j].node)
    ensures FailureEntry(PathOf(prefix, w[j].address), w[j].node) in Failures(w, prefix)
    decreases |w|
  {
    var n := |w| - 1;
    if j < n {
      assert w[..n][j] == w[j];
      FailuresContain(w[..n], prefix, j);
    }
  }

  /** The failures are empty exactly when no visited node failed. */
  lemma {:induction false} FailuresEmpty(w: seq<Visit>, prefix: string)
    ensures Failures(w, prefix) == [] <==> forall k :: 0 <= k < |w| ==> !Failed(w[k].node)
    decreases |w|
  {
    if w != [] {
      var n := |w| - 1;
      FailuresEmpty(w[..n], prefix);
      assert forall k :: 0 <= k < n ==> w[..n][k] == w[k];
    }
  }

  /** The summary never lists more failed calls than the tree has nodes. */
  lemma FailedCallsBound(t: Node, path: string)
    ensures |FailedCalls(t, path)| <= Size(t)
  {
    FailedCallsFollowWalk(t, path);
    SizeIsWalkLength(t);
  }

  /**
   * No false negatives for the path lookup: every path that `findFailedCalls`
   * reports resolves under `getCallByPath` to a failed node, and the entry
   * describes that node.
   */
  lemma FailedPathsResolve(t: Node)
    ensures forall e :: e in FailedCalls(t, ROOT_PATH) ==>
              GetCall(t, e.path).Some? && Failed(GetCall(t, e.path).value)
              && e == FailureEntry(e.path, GetCall(t, e.path).value)
  {
    FailedCallsFollowWalk(t, ROOT_PATH);
    var w := Walk(t);
    forall e | e in FailedCalls(t, ROOT_PATH)
      ensures GetCall(t, e.path).Some? && Failed(GetCall(t, e.path).value)
              && e == FailureEntry(e.path, GetCall(t, e.path).value)
    {
      FailuresMember(w, ROOT_PATH, e);
      var j :| 0 <= j < |w| && Failed(w[j].node) && e == FailureEntry(PathOf(ROOT_PATH, w[j].address), w[j].node);
      WalkResolves(t);
      GetCallOfPath(t, w[j].address);
    }
  }

  /** No failed node is missed: each failed node's entry, with its path, is listed. */
  lemma FailedCallsComplete(t: Node, address: seq<nat>)
    requires Resolve(t, address).Some? && Failed(Resolve(t, address).value)
    ensures FailureEntry(PathOf(ROOT_PATH, address), Resolve(t, address).value) in FailedCalls(t, ROOT_PATH)
  {
    var n := Resolve(t, address).value;
    WalkComplete(t, address);
    var w := Walk(t);
    var j :| 0 <= j < |w| && w[j] == Visit(address, n);
    FailuresContain(w, ROOT_PATH, j);
    FailedCallsFollowWalk(t, ROOT_PATH);
  }

  /** A node that a path finds is a node of the tree, visited at the address the path spells. */
  lemma GetCallFindsTreeNode(t: Node, path: string)
    requires GetCall(t, path).Some?
    ensures exists address: seq<nat> :: Visit(address, GetCall(t, path).value) in Walk(t)
  {
    var parts := ParsePath(path);
    DescendFound(t, parts[1..]);
    var address: seq<nat> :| parts[1..] == Segments(address) && Resolve(t, address) == Descend(t, parts[1..]);
    WalkComplete(t, address);
  }

  // ---------------------------------------------------------------------------
  // Addresses taking part

  /** A node's own truthy `from`, then its truthy `to`. */
  function NodeAddresses(t: Node): seq<string> {
    (if Truthy(t.from) then [t.from.value] else [])
    + (if Truthy(t.to) then [t.to.value] else [])
  }

  /** The addresses in the order the traversal of `extractContracts` meets them, repeats included. */
  function Addresses(t: Node): seq<string> {
    NodeAddresses(t)
    + match t.calls
      case Array(cs) => AddressList(cs)
      case _ => []
  }

  function AddressList(cs: seq<Node>): seq<string> {
    if cs == [] then [] else AddressList(cs[..|cs| - 1]) + Addresses(cs[|cs| - 1])
  }

  /** One more call at the end of a list adds that call's addresses. */
  lemma AddressListSnoc(cs: seq<Node>, i: nat)
    requires i < |cs|
    ensures AddressList(cs[..i + 1]) == AddressList(cs[..i]) + Addresses(cs[i])
  {
    assert cs[..i + 1][..i] == cs[..i];
  }

  lemma AddressesOfKids(t: Node)
    ensures Addresses(t) == NodeAddresses(t) + AddressList(Kids(t))
  {
    if !t.calls.Array? {
      assert AddressList([]) == [];
    }
  }

  /** `extractContracts`: the distinct addresses, in order of first encounter. */
  function Contracts(t: Node): seq<string> {
    Dedup(Addresses(t))
  }

  /** The addresses of the visited nodes, in walk order. */
  function WalkAddresses(w: seq<Visit>): seq<string> {
    if w == [] then [] else WalkAddresses(w[..|w| - 1]) + NodeAddresses(w[|w| - 1].node)
  }

  lemma {:induction false} WalkAddressesAppend(w1: seq<Visit>, w2: seq<Visit>)
    ensures WalkAddresses(w1 + w2) == WalkAddresses(w1) + WalkAddresses(w2)
    decreases |w2|
  {
    if w2 == [] {
      assert w1 + w2 == w1;
    } else {
      var w2' := w2[..|w2| - 1];
      assert (w1 + w2)[..|w1 + w2| - 1] == w1 + w2';
      assert (w1 + w2)[|w1 + w2| - 1] == w2[|w2| - 1];
      WalkAddressesAppend(w1, w2');
      AppendAssoc(WalkAddresses(w1), WalkAddresses(w2'), NodeAddresses(w2[|w2| - 1].node));
    }
  }

  lemma {:induction false} WalkAddressesUnder(i: nat, w: seq<Visit>)
    ensures WalkAddresses(Under(i, w)) == WalkAddresses(w)
    decreases |w|
  {
    if w != [] {
      assert Under(i, w)[..|w| - 1] == Under(i, w[..|w| - 1]);
      WalkAddressesUnder(i, w[..|w| - 1]);
    }
  }

  /** The traversal meets the addresses node by node, in pre-order. */
  lemma {:induction false} AddressesFollowWalk(t: Node)
    ensures Addresses(t) == WalkAddresses(Walk(t))
    decreases t, 1
  {
    assert WalkAddresses([Visit([], t)]) == NodeAddresses(t);
    match t.calls
    case Array(cs) =>
      AddressListFollowsWalk(cs);
      WalkAddressesAppend([Visit([], t)], WalkCalls(cs));
    case _ =>
  }

  lemma {:induction false} AddressListFollowsWalk(cs: seq<Node>)
    ensures AddressList(cs) == WalkAddresses(WalkCalls(cs))
    decreases cs, 0
  {
    if cs != [] {
      var n := |cs| - 1;
      AddressListFollowsWalk(cs[..n]);
      AddressesFollowWalk(cs[n]);
      WalkAddressesAppend(WalkCalls(cs[..n]), Under(n, Walk(cs[n])));
      WalkAddressesUnder(n, Walk(cs[n]));
    }
  }

  /**
   * The contracts involved: distinct, in order of first encounter, and
   * exactly the truthy `from`/`to` values of the nodes of the tree.
   */
  lemma ContractsOfWalk(t: Node)
    ensures NoDup(Contracts(t))
    ensures forall x :: x in Contracts(t) <==> x in Addresses(t)
    ensures Addresses(t) == WalkAddresses(Walk(t))
    ensures forall i, j :: 0 <= i < j < |Contracts(t)| ==>
              FirstIndex(Addresses(t), Contracts(t)[i]) < FirstIndex(Addresses(t), Contracts(t)[j])
  {
    DedupOrder(Addresses(t));
    AddressesFollowWalk(t);
  }
}
