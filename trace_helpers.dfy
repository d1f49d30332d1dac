/**
 * The trace helpers as the program runs them: recursive traversals that
 * accumulate into local variables, a mutable set, or a cursor that walks
 * down the tree. Each is proved against its specification in `CallTrace`.
 */
module TraceHelpers {
  import opened Wrappers
  import opened CallPaths
  import opened OrderedSets
  import opened CallTrace

  /** `countCalls`: 1 for the node, plus the count of each of its calls. */
  method CountCalls(t: Node) returns (count: nat)
    ensures count == Size(t)
    ensures count == |Walk(t)|
  {
    count := 1;
    if t.calls.Array? {
      var cs := t.calls.items;
      var i := 0;
      while i < |cs|
        invariant 0 <= i <= |cs|
        invariant count == 1 + SizeList(cs[..i])
      {
        var c := CountCalls(cs[i]);
        assert cs[..i + 1] == cs[..i] + [cs[i]];
        SizeListSnoc(cs[..i], cs[i]);
        count := count + c;
        i := i + 1;
      }
      assert cs[..|cs|] == cs;
    }
    SizeIsWalkLength(t);
  }

  /** `findFailedCalls(trace, path)`: the node's own entry, then each call's entries under `${path}.${index}`. */
  method FindFailedCalls(t: Node, path: string) returns (failed: seq<FailedCall>)
    ensures failed == FailedCalls(t, path)
  {
    failed := [];
    if Failed(t) {
      failed := failed + [FailureEntry(path, t)];
    }
    ghost var own := failed;
    FailedCallsOfKids(t, path);
    if t.calls.Array? {
      var cs := t.calls.items;
      var i := 0;
      while i < |cs|
        invariant 0 <= i <= |cs|
        invariant failed == own + FailedList(cs[..i], path)
      {
        var sub := FindFailedCalls(cs[i], ChildPath(path, i));
        FailedListSnoc(cs, i, path);
        AppendAssoc(own, FailedList(cs[..i], path), sub);
        failed := failed + sub;
        i := i + 1;
      }
      assert cs[..|cs|] == cs;
    }
  }

  /** The nested `traverse` of `extractContracts`: adds the node's truthy `from` and `to`, then visits its calls. */
  method Traverse(node: Node, contracts: AddressSet)
    requires contracts.Valid()
    modifies contracts
    ensures contracts.Valid()
    ensures contracts.elems == InsertAll(old(contracts.elems), Addresses(node))
  {
    ghost var before := contracts.elems;
    ghost var fromPart := if Truthy(node.from) then [node.from.value] else [];
    ghost var toPart := if Truthy(node.to) then [node.to.value] else [];
    InsertAllSingle(before, if Truthy(node.from) then node.from.value else "");
    if Truthy(node.from) {
      contracts.Add(node.from.value);
    }
    assert contracts.elems == InsertAll(before, fromPart);
    ghost var afterFrom := contracts.elems;
    InsertAllSingle(afterFrom, if Truthy(node.to) then node.to.value else "");
    if Truthy(node.to) {
      contracts.Add(node.to.value);
    }
    assert contracts.elems == InsertAll(afterFrom, toPart);
    InsertAllAppend(before, fromPart, toPart);
    assert fromPart + toPart == NodeAddresses(node);
    if node.calls.Array? {
      var cs := node.calls.items;
      var i := 0;
      assert AddressList(cs[..0]) == [] by {
        assert cs[..0] == [];
      }
      ghost var seen := NodeAddresses(node);
      assert seen + [] == seen;
      while i < |cs|
        invariant 0 <= i <= |cs|
        invariant contracts.Valid()
        invariant seen == NodeAddresses(node) + AddressList(cs[..i])
        invariant contracts.elems == InsertAll(before, seen)
      {
        Traverse(cs[i], contracts);
        InsertAllAppend(before, seen, Addresses(cs[i]));
        AddressListSnoc(cs, i);
        AppendAssoc(NodeAddresses(node), AddressList(cs[..i]), Addresses(cs[i]));
        seen := seen + Addresses(cs[i]);
        i := i + 1;
      }
      assert cs[..|cs|] == cs;
    }
    AddressesOfKids(node);
  }

  /**
   * `extractContracts`: the members of the set the traversal fills, in
   * iteration order — each truthy address once, in order of first encounter.
   */
  method ExtractContracts(t: Node) returns (contracts: seq<string>)
    ensures contracts == Contracts(t)
    ensures NoDup(contracts)
    ensures forall x :: x in contracts <==> x in Addresses(t)
  {
    var seen := new AddressSet();
    Traverse(t, seen);
    contracts := seen.elems;
    ContractsOfWalk(t);
  }

  /**
   * `getCallByPath(trace, path)`: split the path, insist on the root marker 0,
   * then step into `calls[index]` once per remaining segment. A negative or
   * unparsable segment is not found (in the program it yields `undefined`).
   */
  method GetCallByPath(trace: Node, path: string) returns (found: Option<Node>)
    ensures found == GetCall(trace, path)
    ensures found.Some? ==> exists address: seq<nat> :: Visit(address, found.value) in Walk(trace)
  {
    var parts := ParsePath(path);
    if parts[0] != Some(0) {
      return None;
    }
    var current := trace;
    var i := 1;
    while i < |parts|
      invariant 1 <= i <= |parts|
      invariant Descend(trace, parts[1..]) == Descend(current, parts[i..])
    {
      var index := parts[i];
      assert parts[i..][0] == index && parts[i..][1..] == parts[i + 1..];
      if !current.calls.Array? || index.None? || index.value < 0 || index.value >= |current.calls.items| {
        return None;
      }
      current := current.calls.items[index.value];
      i := i + 1;
    }
    found := Some(current);
    GetCallFindsTreeNode(trace, path);
  }
}
