/**
 The condition variable's own state: an epoch and a queue of waiters, both used under the
 caller's lock.
 */
module Condition {
  import opened Basics
  import opened Queue

  class Condition {
    var epoch: nat
    const queue: Queue

    ghost predicate Valid()
      reads this, queue, queue.contents
    {
      queue.Valid()
    }

    constructor ()
      ensures Valid() && epoch == 0 && queue.contents == [] && fresh(queue)
    {
      epoch := 0;
      queue := new Queue();
    }

    /** The section of `wait` under the lock, in the switch handler: whether the thread is made ready
        again at once, because a notification came since it released the lock. */
    method Enqueue(me: Node, since: nat) returns (ready: bool)
      requires Valid() && me !in queue.contents && since <= epoch
      modifies queue, me, if queue.contents == [] then {} else {queue.contents[|queue.contents| - 1]}
      ensures Valid() && ready == (epoch != since)
      ensures queue.contents == if epoch == since then old(queue.contents) + [me] else old(queue.contents)
    {
      ready := epoch != since;
      if !ready {
        queue.Add(me);
      }
    }

    /** `notify`: the first `limit` waiters, or all of them, are taken out in order; who waits from
        now on does so in a new epoch. */
    method Notify(limit: nat) returns (ready: seq<Node>)
      requires Valid()
      modifies this, queue
      ensures Valid() && epoch == old(epoch) + 1
      ensures ready + queue.contents == old(queue.contents)
      ensures |ready| == if limit < |old(queue.contents)| then limit else |old(queue.contents)|
    {
      hide Chained, Distinct;
      ghost var was := queue.contents;
      epoch := epoch + 1;
      ready := [];
      var i := 0;
      while i < limit
        invariant Valid() && epoch == old(epoch) + 1
        invariant i <= limit && i <= |was|
        invariant ready == was[..i] && queue.contents == was[i..]
      {
        var next := queue.Remove();
        if next == null {
          break;
        }
        ready := ready + [next];
        i := i + 1;
      }
    }
  }
}
