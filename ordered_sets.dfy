/**
 * A JavaScript `Set<string>`: membership plus insertion order. Iterating a
 * set (`Array.from(set)`) yields each member once, in the order it was first
 * added.
 */
module OrderedSets {

  predicate NoDup(s: seq<string>) {
    forall i, j :: 0 <= i < j < |s| ==> s[i] != s[j]
  }

  /** `set.add(x)`: a member already present keeps its place. */
  function Insert(members: seq<string>, x: string): seq<string> {
    if x in members then members else members + [x]
  }

  /** Adding every element of `xs`, left to right. */
  function InsertAll(members: seq<string>, xs: seq<string>): seq<string> {
    if xs == [] then members
    else Insert(InsertAll(members, xs[..|xs| - 1]), xs[|xs| - 1])
  }

  /** The members, in iteration order, of a set built by adding `xs` in order. */
  function Dedup(xs: seq<string>): seq<string> {
    InsertAll([], xs)
  }

  /** The position of the first occurrence of `x` in `xs`. */
  function FirstIndex(xs: seq<string>, x: string): (k: nat)
    requires x in xs
    ensures k < |xs| && xs[k] == x
    ensures forall i :: 0 <= i < k ==> xs[i] != x
  {
    if xs[0] == x then 0 else 1 + FirstIndex(xs[1..], x)
  }

  lemma InsertAllSingle(members: seq<string>, x: string)
    ensures InsertAll(members, []) == members
    ensures InsertAll(members, [x]) == Insert(members, x)
  {
    assert [x][..0] == [];
  }

  lemma {:induction false} InsertAllAppend(members: seq<string>, xs: seq<string>, ys: seq<string>)
    ensures InsertAll(members, xs + ys) == InsertAll(InsertAll(members, xs), ys)
    decreases |ys|
  {
    if ys != [] {
      var ys' := ys[..|ys| - 1];
      assert (xs + ys)[..|xs + ys| - 1] == xs + ys';
      InsertAllAppend(members, xs, ys');
    } else {
      assert xs + ys == xs;
    }
  }

  /**
   * Adding keeps the members distinct, the members are exactly the old ones
   * and the added ones, and the old members keep their places in front.
   */
  lemma {:induction false} InsertAllMembers(members: seq<string>, xs: seq<string>)
    requires NoDup(members)
    ensures NoDup(InsertAll(members, xs))
    ensures forall x :: x in InsertAll(members, xs) <==> x in members || x in xs
    ensures |InsertAll(members, xs)| >= |members|
    ensures InsertAll(members, xs)[..|members|] == members
    decreases |xs|
  {
    if xs != [] {
      var init := xs[..|xs| - 1];
      InsertAllMembers(members, init);
      assert xs == init + [xs[|xs| - 1]];
    }
  }

  lemma FirstIndexOfPrefix(xs: seq<string>, n: nat, x: string)
    requires n <= |xs| && x in xs[..n]
    ensures FirstIndex(xs, x) == FirstIndex(xs[..n], x)
  {
    var k := FirstIndex(xs[..n], x);
    assert xs[k] == x;
  }

  /**
   * The iteration order of the set is the order of first occurrence in `xs`:
   * no member is listed twice, nothing else is listed, and a member listed
   * earlier first occurs earlier.
   */
  lemma {:induction false} DedupOrder(xs: seq<string>)
    ensures NoDup(Dedup(xs))
    ensures forall x :: x in Dedup(xs) <==> x in xs
    ensures forall i, j :: 0 <= i < j < |Dedup(xs)| ==>
              FirstIndex(xs, Dedup(xs)[i]) < FirstIndex(xs, Dedup(xs)[j])
    decreases |xs|
  {
    InsertAllMembers([], xs);
    if xs != [] {
      var n := |xs| - 1;
      var init := xs[..n];
      var last := xs[n];
      var d := Dedup(init);
      DedupOrder(init);
      forall x | x in d
        ensures FirstIndex(xs, x) == FirstIndex(init, x) && FirstIndex(xs, x) < n
      {
        FirstIndexOfPrefix(xs, n, x);
      }
      if last !in d {
        assert FirstIndex(xs, last) == n;
        assert Dedup(xs) == d + [last];
      }
    }
  }

  /** The mutable set object that a traversal adds addresses to. */
  class AddressSet {
    var elems: seq<string>

    ghost predicate Valid()
      reads this
    {
      NoDup(elems)
    }

    constructor ()
      ensures Valid() && elems == []
    {
      elems := [];
    }

    method Add(x: string)
      requires Valid()
      modifies this
      ensures Valid()
      ensures elems == Insert(old(elems), x)
    {
      if x !in elems {
        elems := elems + [x];
      }
    }
  }
}
