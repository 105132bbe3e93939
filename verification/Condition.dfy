/** Condition variables (threads/synch.cc): a queue of waiters, each with a semaphore of its own. */
module Conditions {
  import opened Common
  import opened Semaphores
  import opened Locks

  class Condition {
    var waitQueue: seq<Semaphore>

    /** No semaphore has two waiters, and none of them is the lock's. */
    ghost predicate Valid(lock: Lock)
      reads this
    {
      Distinct(waitQueue) && lock.semaphore !in waitQueue
    }

    constructor ()
      ensures waitQueue == []
    {
      waitQueue := [];
    }

    /** `Wait` up to its `P`: the semaphore is in the queue before the lock is free,
        so a signal given from then on is kept by it. */
    method StartWait(lock: Lock, t: Tid) returns (waiter: Semaphore, ready: Option<Tid>)
      requires Valid(lock) && lock.lockHolder == Some(t)
      modifies this, lock, lock.semaphore
      ensures Valid(lock) && fresh(waiter) && waiter.Data() == SemData(0, [])
      ensures waitQueue == old(waitQueue) + [waiter]
      ensures ready == Wakes(old(lock.Data()).sem) && lock.Data() == Released(old(lock.Data()))
    {
      waiter := new Semaphore(0);
      waitQueue := waitQueue + [waiter];
      ready := lock.Release(t);
    }

    method Signal(lock: Lock, t: Tid) returns (ready: Option<Tid>)
      requires Valid(lock) && lock.lockHolder == Some(t)
      modifies this, set s | s in waitQueue
      ensures Valid(lock) && lock.Data() == old(lock.Data())
      ensures old(waitQueue) == [] ==> ready == None && waitQueue == []
      ensures old(waitQueue) != [] ==>
                var first := old(waitQueue)[0];
                && waitQueue == old(waitQueue)[1..]
                && ready == Wakes(old(first.Data())) && first.Data() == V(old(first.Data()))
      ensures forall s :: s in waitQueue ==> s.Data() == old(s.Data())
    {
      ready := None;
      if waitQueue != [] {
        var waiter := waitQueue[0];
        waitQueue := waitQueue[1..];
        ready := waiter.Vee();
      }
    }

    /** Every waiter gets a `V`, in the order of the queue. */
    method Broadcast(lock: Lock, t: Tid) returns (ready: seq<Option<Tid>>)
      requires Valid(lock) && (waitQueue != [] ==> lock.lockHolder == Some(t))
      modifies this, set s | s in waitQueue
      ensures Valid(lock) && waitQueue == [] && lock.Data() == old(lock.Data())
      ensures |ready| == |old(waitQueue)|
      ensures forall i :: 0 <= i < |ready| ==>
                var s := old(waitQueue)[i];
                s.Data() == V(old(s.Data())) && ready[i] == Wakes(old(s.Data()))
    {
      ghost var all := waitQueue;
      ready := [];
      while waitQueue != []
        invariant |ready| <= |all| && waitQueue == all[|ready|..] && Valid(lock)
        invariant lock.Data() == old(lock.Data())
        invariant forall i :: 0 <= i < |ready| ==> all[i].Data() == V(old(all[i].Data()))
                                                     && ready[i] == Wakes(old(all[i].Data()))
        invariant forall i :: |ready| <= i < |all| ==> all[i].Data() == old(all[i].Data())
        decreases |waitQueue|
      {
        assert forall i :: |ready| <= i < |all| ==> all[i] == waitQueue[i - |ready|];
        var one := Signal(lock, t);
        ready := ready + [one];
      }
    }
  }
}
