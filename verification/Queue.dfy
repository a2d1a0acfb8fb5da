/**
 The intrusive FIFO queue: a list threaded through the `next` fields of the objects
 that are in it.  It refines a sequence.
 */
module Queue {
  import opened Basics

  class Node {
    var next: Node?

    constructor ()
      ensures next == null
    {
      next := null;
    }
  }

  /** The node after position `i` of `s`; null after the last. */
  function At(s: seq<Node>, i: nat): Node? {
    if i < |s| then s[i] else null
  }

  /** From `first`, the nodes of `s` follow one another, and null follows the last. */
  ghost predicate Chained(first: Node?, s: seq<Node>)
    reads s
  {
    && first == At(s, 0)
    && forall i :: 0 <= i < |s| ==> s[i].next == At(s, i + 1)
  }

  /** A chain determines its nodes. */
  lemma {:induction false} ChainIsFunction(first: Node?, s: seq<Node>, t: seq<Node>)
    requires Chained(first, s) && Chained(first, t)
    ensures s == t
    decreases s
  {
    if s != [] && t != [] {
      TailChained(first, s);
      TailChained(first, t);
      ChainIsFunction(s[0].next, s[1..], t[1..]);
    }
  }

  lemma TailChained(first: Node?, s: seq<Node>)
    requires Chained(first, s) && s != []
    ensures Chained(s[0].next, s[1..])
  {
    forall i | 0 <= i < |s[1..]|
      ensures s[1..][i].next == At(s[1..], i + 1)
    {
      assert s[1..][i] == s[i + 1];
    }
  }

  class Queue {
    var first: Node?
    var last: Node?
    ghost var contents: seq<Node>

    ghost predicate Valid()
      reads this, contents
    {
      && Chained(first, contents) && Distinct(contents)
      && last == if contents == [] then null else contents[|contents| - 1]
    }

    constructor ()
      ensures Valid() && contents == []
    {
      first := null;
      last := null;
      contents := [];
    }

    /** The one precondition of an intrusive list: the object is not in it yet. */
    method Add(t: Node)
      requires Valid() && t !in contents
      modifies this, t, if contents == [] then {} else {contents[|contents| - 1]}
      ensures Valid() && contents == old(contents) + [t]
    {
      t.next := null;
      if first == null {
        first := t;
      } else {
        last.next := t;
      }
      last := t;
      contents := contents + [t];
    }

    method Remove() returns (it: Node?)
      requires Valid()
      modifies this
      ensures Valid()
      ensures old(contents) == [] ==> it == null && contents == []
      ensures old(contents) != [] ==> it == old(contents)[0] && contents == old(contents)[1..]
    {
      if first == null {
        return null;
      }
      it := first;
      first := it.next;
      contents := contents[1..];
      if first == null {
        last := null;
      }
    }

    /** Gives the whole chain away. */
    method RemoveAll() returns (it: Node?)
      requires Valid()
      modifies this
      ensures Valid() && contents == [] && Chained(it, old(contents))
    {
      it := first;
      first := null;
      last := null;
      contents := [];
    }
  }
}
