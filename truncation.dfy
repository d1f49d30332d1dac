/**
 * The depth truncator: a copy of a call trace cut to a depth limit. Nodes on
 * the last kept level lose their calls and carry a count-and-flag
 * placeholder instead; every other field of every kept node is copied.
 * Values are immutable here, so the input tree stays intact by construction.
 */
module Truncation {
  import opened Wrappers
  import opened CallTrace

  /** A node without its `calls` and without the truncation markers: what a copy must keep. */
  function Unmarked(t: Node): Node {
    t.(calls := Absent, nestedCallsCount := None, nestedCallsOmitted := None)
  }

  /**
   * `truncateCallTrace(trace, maxDepth, currentDepth)`. At or past the limit
   * the node comes back as it is. On the last kept level (`depth + 1 >=
   * maxDepth`) a node with calls gets `calls = []`, `nestedCallsCount` and
   * `nestedCallsOmitted = true`. Above it the calls are truncated one by one.
   */
  function Truncate(t: Node, maxDepth: int, depth: int): (r: Node)
    ensures Unmarked(r) == Unmarked(t)
    ensures depth >= maxDepth ==> r == t
    ensures |Kids(t)| == 0 ==> r == t
    ensures depth < maxDepth <= depth + 1 && |Kids(t)| > 0 ==>
              r.calls == Array([]) && r.nestedCallsCount == Some(|Kids(t)|) && r.nestedCallsOmitted == Some(true)
  {
    if depth >= maxDepth then t
    else
      match t.calls
      case Array(cs) =>
        if |cs| == 0 then t
        else if depth + 1 >= maxDepth then
          t.(calls := Array([]), nestedCallsCount := Some(|cs|), nestedCallsOmitted := Some(true))
        else
          t.(calls := Array(TruncateAll(cs, maxDepth, depth + 1)))
      case _ => t
  }

  /** `calls.map(call => truncateCallTrace(call, maxDepth, depth))`. */
  function TruncateAll(cs: seq<Node>, maxDepth: int, depth: int): (r: seq<Node>)
    ensures |r| == |cs|
    ensures forall i {:trigger r[i]} :: 0 <= i < |cs| ==> r[i] == Truncate(cs[i], maxDepth, depth)
  {
    seq(|cs|, i requires 0 <= i < |cs| => Truncate(cs[i], maxDepth, depth))
  }

  /**
   * Above the last kept level the markers are left as they were and the
   * calls keep their number and order, each truncated on its own one level
   * deeper.
   */
  lemma TruncateAboveBoundary(t: Node, maxDepth: int, depth: int)
    requires depth + 1 < maxDepth
    ensures Truncate(t, maxDepth, depth).nestedCallsCount == t.nestedCallsCount
    ensures Truncate(t, maxDepth, depth).nestedCallsOmitted == t.nestedCallsOmitted
    ensures Kids(Truncate(t, maxDepth, depth)) == TruncateAll(Kids(t), maxDepth, depth + 1)
  {
  }

  /** A looked-up node truncated as it would be at `depth`; nothing stays nothing. */
  function TruncateFound(o: Option<Node>, maxDepth: int, depth: int): (r: Option<Node>)
    ensures r.Some? <==> o.Some?
    ensures o.Some? ==> Unmarked(r.value) == Unmarked(o.value)
  {
    match o
    case Some(n) => Some(Truncate(n, maxDepth, depth))
    case None => None
  }

  /**
   * The truncated tree is the depth-limited prefix of the original: within
   * `maxDepth - depth` levels each address resolves exactly when it does in
   * the original, to the original node truncated at its own depth; any
   * deeper address resolves to nothing.
   */
  lemma TruncateResolve(t: Node, maxDepth: int, depth: int, address: seq<nat>)
    requires depth < maxDepth
    ensures Resolve(Truncate(t, maxDepth, depth), address)
         == if |address| < maxDepth - depth then TruncateFound(Resolve(t, address), maxDepth, depth + |address|)
            else None
  {
    if |address| < maxDepth - depth {
      TruncateResolveWithin(t, maxDepth, depth, address);
    } else {
      TruncateResolveBeyond(t, maxDepth, depth, address);
    }
  }

  lemma {:induction false} TruncateResolveWithin(t: Node, maxDepth: int, depth: int, address: seq<nat>)
    requires depth < maxDepth && |address| < maxDepth - depth
    ensures Resolve(Truncate(t, maxDepth, depth), address) == TruncateFound(Resolve(t, address), maxDepth, depth + |address|)
    decreases |address|
  {
    if address == [] {
      assert Resolve(Truncate(t, maxDepth, depth), address) == Some(Truncate(t, maxDepth, depth));
    } else {
      var i := address[0];
      var rest := address[1..];
      assert address == [i] + rest;
      if i < |Kids(t)| {
        TruncateChild(t, maxDepth, depth, i, rest);
        TruncateResolveWithin(Kids(t)[i], maxDepth, depth + 1, rest);
      } else {
        TruncateOutOfRange(t, maxDepth, depth, i, rest);
      }
    }
  }

  lemma {:induction false} TruncateResolveBeyond(t: Node, maxDepth: int, depth: int, address: seq<nat>)
    requires depth < maxDepth && |address| >= maxDepth - depth
    ensures Resolve(Truncate(t, maxDepth, depth), address) == None
    decreases |address|
  {
    var i := address[0];
    var rest := address[1..];
    assert address == [i] + rest;
    if depth + 1 >= maxDepth {
      TruncateBoundaryResolve(t, maxDepth, depth, i, rest);
    } else if i < |Kids(t)| {
      TruncateChild(t, maxDepth, depth, i, rest);
      TruncateResolveBeyond(Kids(t)[i], maxDepth, depth + 1, rest);
    } else {
      TruncateOutOfRange(t, maxDepth, depth, i, rest);
    }
  }

  /** On the last kept level every call is gone from the copy. */
  lemma TruncateBoundaryResolve(t: Node, maxDepth: int, depth: int, i: nat, rest: seq<nat>)
    requires depth < maxDepth <= depth + 1
    ensures Resolve(Truncate(t, maxDepth, depth), [i] + rest) == None
  {
    var r := Truncate(t, maxDepth, depth);
    assert Kids(r) == [];
    ResolveChild(r, i, rest);
  }

  /** An index past the last call finds nothing, in the copy as in the original. */
  lemma TruncateOutOfRange(t: Node, maxDepth: int, depth: int, i: nat, rest: seq<nat>)
    requires depth + 1 < maxDepth && i >= |Kids(t)|
    ensures Resolve(Truncate(t, maxDepth, depth), [i] + rest) == None
    ensures Resolve(t, [i] + rest) == None
  {
    var r := Truncate(t, maxDepth, depth);
    TruncateAboveBoundary(t, maxDepth, depth);
    assert |Kids(r)| == |Kids(t)|;
    ResolveChild(r, i, rest);
    ResolveChild(t, i, rest);
  }

  /** Lookup through a kept call of the copy is lookup in that call's own truncation. */
  lemma TruncateChild(t: Node, maxDepth: int, depth: int, i: nat, rest: seq<nat>)
    requires depth + 1 < maxDepth
    requires i < |Kids(t)|
    ensures Resolve(Truncate(t, maxDepth, depth), [i] + rest)
         == Resolve(Truncate(Kids(t)[i], maxDepth, depth + 1), rest)
    ensures Resolve(t, [i] + rest) == Resolve(Kids(t)[i], rest)
  {
    var r := Truncate(t, maxDepth, depth);
    TruncateAboveBoundary(t, maxDepth, depth);
    assert Kids(r)[i] == Truncate(Kids(t)[i], maxDepth, depth + 1);
    ResolveChild(r, i, rest);
    ResolveChild(t, i, rest);
  }

  /** No node `level` levels below `t` made any calls. */
  predicate NoCallsAt(t: Node, level: nat)
    decreases t
  {
    if level == 0 then |Kids(t)| == 0
    else forall i :: 0 <= i < |Kids(t)| ==> NoCallsAt(Kids(t)[i], level - 1)
  }

  /**
   * Truncation changes a tree exactly when some node on the last kept level
   * made calls: those calls are the only thing it drops.
   */
  lemma {:induction false} TruncateUnchanged(t: Node, maxDepth: int, depth: int)
    requires depth < maxDepth
    ensures Truncate(t, maxDepth, depth) == t <==> NoCallsAt(t, maxDepth - depth - 1)
    decreases t
  {
    var r := Truncate(t, maxDepth, depth);
    if |Kids(t)| > 0 {
      var cs := t.calls.items;
      if depth + 1 >= maxDepth {
        assert r.calls != t.calls;
      } else {
        TruncateAboveBoundary(t, maxDepth, depth);
        forall i | 0 <= i < |cs|
          ensures Truncate(cs[i], maxDepth, depth + 1) == cs[i] <==> NoCallsAt(cs[i], maxDepth - depth - 2)
        {
          TruncateUnchanged(cs[i], maxDepth, depth + 1);
        }
        if r == t {
          forall i | 0 <= i < |cs|
            ensures NoCallsAt(cs[i], maxDepth - depth - 2)
          {
            assert Kids(r)[i] == Truncate(cs[i], maxDepth, depth + 1);
          }
        }
        if NoCallsAt(t, maxDepth - depth - 1) {
          assert Kids(r) == cs;
          assert r == t;
        }
      }
    }
  }

  /** No node of a tree truncated to `maxDepth >= 1` lies `maxDepth` or more levels below the root. */
  lemma TruncatedDepthBound(t: Node, maxDepth: int)
    requires maxDepth >= 1
    ensures forall k :: 0 <= k < |Walk(Truncate(t, maxDepth, 0))| ==>
              |Walk(Truncate(t, maxDepth, 0))[k].address| < maxDepth
  {
    var r := Truncate(t, maxDepth, 0);
    WalkResolves(r);
    forall k | 0 <= k < |Walk(r)|
      ensures |Walk(r)[k].address| < maxDepth
    {
      TruncateResolve(t, maxDepth, 0, Walk(r)[k].address);
    }
  }

  /**
   * A node within the limit keeps every field but its calls, and one on the
   * last kept level that made calls records how many were dropped.
   */
  lemma TruncateKeepsShallowNodes(t: Node, maxDepth: int, address: seq<nat>)
    requires |address| < maxDepth
    requires Resolve(t, address).Some?
    ensures Resolve(Truncate(t, maxDepth, 0), address).Some?
    ensures Unmarked(Resolve(Truncate(t, maxDepth, 0), address).value) == Unmarked(Resolve(t, address).value)
    ensures |address| == maxDepth - 1 && |Kids(Resolve(t, address).value)| > 0 ==>
              Kids(Resolve(Truncate(t, maxDepth, 0), address).value) == []
              && Resolve(Truncate(t, maxDepth, 0), address).value.nestedCallsCount
                 == Some(|Kids(Resolve(t, address).value)|)
              && Resolve(Truncate(t, maxDepth, 0), address).value.nestedCallsOmitted == Some(true)
  {
    TruncateResolve(t, maxDepth, 0, address);
  }

  /** Truncating a truncated tree to the same limit changes nothing. */
  lemma {:induction false} TruncateIdempotent(t: Node, maxDepth: int, depth: int)
    ensures Truncate(Truncate(t, maxDepth, depth), maxDepth, depth) == Truncate(t, maxDepth, depth)
    decreases t
  {
    var r := Truncate(t, maxDepth, depth);
    if depth + 1 < maxDepth && |Kids(t)| > 0 {
      var cs := t.calls.items;
      var rs := r.calls.items;
      forall i | 0 <= i < |cs|
        ensures Truncate(rs[i], maxDepth, depth + 1) == rs[i]
      {
        TruncateIdempotent(cs[i], maxDepth, depth + 1);
      }
      assert TruncateAll(rs, maxDepth, depth + 1) == rs;
    }
  }

  lemma {:induction false} SizeListPointwise(xs: seq<Node>, ys: seq<Node>)
    requires |xs| == |ys|
    requires forall i :: 0 <= i < |xs| ==> Size(xs[i]) <= Size(ys[i])
    ensures SizeList(xs) <= SizeList(ys)
    decreases |xs|
  {
    if xs != [] {
      var n := |xs| - 1;
      SizeListPointwise(xs[..n], ys[..n]);
    }
  }

  /** A truncated copy never has more nodes than the original. */
  lemma {:induction false} TruncateShrinks(t: Node, maxDepth: int, depth: int)
    ensures Size(Truncate(t, maxDepth, depth)) <= Size(t)
    decreases t
  {
    var r := Truncate(t, maxDepth, depth);
    if depth < maxDepth && |Kids(t)| > 0 {
      var cs := t.calls.items;
      if depth + 1 < maxDepth {
        forall i | 0 <= i < |cs|
          ensures Size(r.calls.items[i]) <= Size(cs[i])
        {
          TruncateShrinks(cs[i], maxDepth, depth + 1);
        }
        SizeListPointwise(r.calls.items, cs);
      } else {
        SizeAboveOne(t);
      }
    }
  }
}
