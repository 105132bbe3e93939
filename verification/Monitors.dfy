/** The monitor list (threads/synchlist.cc) and the synchronous disk (filesys/synchdisk.cc) as objects.
    Each method is one atomic segment of the code, from one point where the thread may be switched out to
    the next. Their interleavings are the step systems of the same two files: an object represents the
    shared part of a state, and each method takes it along one step. */
module Monitors {
  import opened Common
  import opened Semaphores
  import opened Locks
  import opened Conditions
  import L = SynchLists
  import D = SynchDiskProtocol

  /** The queue of a condition variable holds the semaphores of the threads that the state says are
      waiting for a signal, and no two waiting threads share one. */
  ghost predicate Waiters<T>(s: L.State<T>, waiterOf: seq<Semaphore>, queue: seq<Semaphore>, lockSem: Semaphore) {
    && |waiterOf| == |s.waiters| == |s.pcs| && |queue| == |s.waitQueue|
    && (forall i :: 0 <= i < |queue| ==> s.waitQueue[i] < |waiterOf| && queue[i] == waiterOf[s.waitQueue[i]])
    && (forall t: Tid :: t < |s.pcs| && s.pcs[t].Waiting? ==> waiterOf[t] != lockSem)
    && (forall t: Tid, u: Tid :: t < u < |s.pcs| && s.pcs[t].Waiting? && s.pcs[u].Waiting? ==> waiterOf[t] != waiterOf[u])
  }

  lemma QueuedWait<T(!new)>(s: L.State<T>, i: nat)
    requires L.Inv(s) && i < |s.waitQueue|
    ensures s.waitQueue[i] < |s.pcs| && s.pcs[s.waitQueue[i]].Waiting?
  {
    hide L.LockOk, L.ItemsCovered, L.Fifo;
    assert s.waitQueue[i] in s.waitQueue;
  }

  /** No semaphore is twice in the queue, and the lock's is not in it. */
  lemma QueueDistinct<T(!new)>(s: L.State<T>, waiterOf: seq<Semaphore>, queue: seq<Semaphore>, lockSem: Semaphore)
    requires L.Inv(s) && Waiters(s, waiterOf, queue, lockSem)
    ensures Distinct(queue) && lockSem !in queue
  {
    hide L.Inv;
    forall i | 0 <= i < |queue|
      ensures s.waitQueue[i] < |s.pcs| && s.pcs[s.waitQueue[i]].Waiting?
    {
      QueuedWait(s, i);
    }
    L.QueueDistinct(s);
    forall i, j | 0 <= i < j < |queue|
      ensures queue[i] != queue[j]
    {
      var t, u := s.waitQueue[i], s.waitQueue[j];
      assert t != u && queue[i] == waiterOf[t] && queue[j] == waiterOf[u];
      assert t < u ==> waiterOf[t] != waiterOf[u];
      assert u < t ==> waiterOf[u] != waiterOf[t];
    }
  }

  lemma WaitersMean<T(!new)>(s: L.State<T>, waiterOf: seq<Semaphore>, queue: seq<Semaphore>, lockSem: Semaphore)
    requires L.Inv(s) && Waiters(s, waiterOf, queue, lockSem)
    ensures |waiterOf| == |s.waiters| == |s.pcs| && |queue| == |s.waitQueue|
    ensures forall t: Tid :: t < |s.pcs| && s.pcs[t].Waiting? ==> waiterOf[t] != lockSem
    ensures queue != [] ==>
              s.waitQueue[0] < |waiterOf| && queue[0] == waiterOf[s.waitQueue[0]] && s.pcs[s.waitQueue[0]].Waiting?
  {
    if queue != [] {
      QueuedWait(s, 0);
    }
  }

  /** The shared part of the state after `Append` has signalled: only the first waiter's semaphore changes. */
  lemma AppendShared<T(!new)>(s: L.State<T>, t: Tid, item: T, waiterOf: seq<Semaphore>, queue: seq<Semaphore>, lockSem: Semaphore)
    requires L.Inv(s) && Waiters(s, waiterOf, queue, lockSem) && L.Enabled(s, L.Enter(t)) && s.pcs[t].op == L.Append(item)
    ensures var s' := L.Next(s, L.Enter(t));
            && s'.lock == Hold(s.lock, t) && s'.list == s.list + [item]
            && Waiters(s', waiterOf, if queue == [] then [] else queue[1..], lockSem)
            && forall u: Tid :: u < |s.pcs| && s'.pcs[u].Waiting? ==>
                 && s.pcs[u].Waiting? && s'.waiters[u] == (if queue != [] && u == s.waitQueue[0] then V(s.waiters[u]) else s.waiters[u])
                 && (queue != [] && u != s.waitQueue[0] ==> waiterOf[u] != queue[0])
  {
    hide L.Inv, V, Hold;
    if queue != [] {
      QueuedWait(s, 0);
      var w := s.waitQueue[0];
      forall u: Tid | u < |s.pcs| && s.pcs[u].Waiting? && u != w
        ensures waiterOf[u] != queue[0]
      {
        assert u < w ==> waiterOf[u] != waiterOf[w];
        assert w < u ==> waiterOf[w] != waiterOf[u];
      }
    }
  }

  /** The shared part after `RemoveFront` has queued up a new waiter. */
  lemma WaitShared<T(!new)>(s: L.State<T>, t: Tid, waiterOf: seq<Semaphore>, queue: seq<Semaphore>, lockSem: Semaphore, waiter: Semaphore)
    requires L.Inv(s) && Waiters(s, waiterOf, queue, lockSem) && L.Enabled(s, L.Enter(t)) && s.pcs[t].op.Remove? && s.list == []
    requires waiter !in waiterOf && waiter != lockSem
    ensures var s' := L.Next(s, L.Enter(t));
            && s'.lock == Released(Hold(s.lock, t)) && s'.list == []
            && Waiters(s', waiterOf[t := waiter], queue + [waiter], lockSem)
            && s'.pcs[t].Waiting? && s'.waiters[t] == SemData(0, [])
            && forall u: Tid :: u < |s.pcs| && u != t && s'.pcs[u].Waiting? ==>
                 s.pcs[u].Waiting? && s'.waiters[u] == s.waiters[u] && waiterOf[u] != waiter
  {
    hide L.Inv, L.WakeLockSleeper, Released, Hold;
    var held := Hold(s.lock, t);
    L.WakeKeepsRest(s.pcs[t := L.Waiting(false, false)], held);
    forall i | 0 <= i < |queue|
      ensures s.waitQueue[i] < |s.pcs| && s.waitQueue[i] != t
    {
      QueuedWait(s, i);
    }
  }

  lemma TakeShared<T(!new)>(s: L.State<T>, t: Tid, waiterOf: seq<Semaphore>, queue: seq<Semaphore>, lockSem: Semaphore)
    requires L.Inv(s) && Waiters(s, waiterOf, queue, lockSem) && L.Enabled(s, L.Enter(t)) && s.pcs[t].op.Remove? && s.list != []
    ensures var s' := L.Next(s, L.Enter(t));
            && s'.lock == Released(Hold(s.lock, t)) && s'.list == s.list[1..] && Waiters(s', waiterOf, queue, lockSem)
            && forall u: Tid :: u < |s.pcs| && s'.pcs[u].Waiting? ==> s.pcs[u].Waiting? && s'.waiters[u] == s.waiters[u]
  {
    hide L.Inv, L.WakeLockSleeper, Released, Hold;
    L.WakeKeepsRest(s.pcs[t := L.Idle], Hold(s.lock, t));
  }

  lemma LeaveShared<T(!new)>(s: L.State<T>, t: Tid, waiterOf: seq<Semaphore>, queue: seq<Semaphore>, lockSem: Semaphore)
    requires Waiters(s, waiterOf, queue, lockSem) && L.Enabled(s, L.Leave(t))
    ensures var s' := L.Next(s, L.Leave(t));
            && s'.lock == Released(s.lock) && s'.list == s.list && Waiters(s', waiterOf, queue, lockSem)
            && forall u: Tid :: u < |s.pcs| && s'.pcs[u].Waiting? ==> s.pcs[u].Waiting? && s'.waiters[u] == s.waiters[u]
  {
    hide L.WakeLockSleeper, Released;
    L.WakeKeepsRest(s.pcs[t := L.Idle], s.lock);
  }

  class SynchList<T(==,!new)> {
    const lock: Lock
    const listEmpty: Condition
    var list: seq<T>

    /** `waiterOf` gives the semaphore of each thread that is in `Condition::Wait`. */
    ghost predicate Represents(s: L.State<T>, waiterOf: seq<Semaphore>)
      reads this, lock, lock.semaphore, listEmpty, set x | x in waiterOf
    {
      && lock.Data() == s.lock && list == s.list && Waiters(s, waiterOf, listEmpty.waitQueue, lock.semaphore)
      && forall t: Tid :: t < |s.pcs| && s.pcs[t].Waiting? ==> waiterOf[t].Data() == s.waiters[t]
    }

    constructor (ghost threads: nat, ghost waiterOf: seq<Semaphore>)
      requires |waiterOf| == threads
      ensures var s := L.State(FREE, [], seq(threads, _ => SemData(0, [])), [], seq(threads, _ => L.Idle), [], []);
              L.Initial(s) && Represents(s, waiterOf)
    {
      lock := new Lock();
      listEmpty := new Condition();
      list := [];
    }

    /** One test of the lock's semaphore. */
    method TestLock(t: Tid, ghost s: L.State<T>, ghost waiterOf: seq<Semaphore>) returns (sleeps: bool)
      requires L.Inv(s) && Represents(s, waiterOf) && L.Enabled(s, L.TestLockSem(t))
      modifies lock.semaphore
      ensures L.Inv(L.Next(s, L.TestLockSem(t))) && Represents(L.Next(s, L.TestLockSem(t)), waiterOf)
      ensures sleeps == L.Next(s, L.TestLockSem(t)).pcs[t].Asleep?
    {
      hide L.Inv;
      L.NextKeepsInv(s, L.TestLockSem(t));
      L.TestLockStep(s, t);
      sleeps := lock.TestAcquire(t);
    }

    /** `Append` from the return of the lock's `P` to that of the signal. */
    method Append(t: Tid, item: T, ghost s: L.State<T>, ghost waiterOf: seq<Semaphore>) returns (ready: Option<Tid>)
      requires L.Inv(s) && Represents(s, waiterOf) && L.Enabled(s, L.Enter(t)) && s.pcs[t].op == L.Append(item)
      modifies this, lock, listEmpty, set x | x in listEmpty.waitQueue
      ensures L.Inv(L.Next(s, L.Enter(t))) && Represents(L.Next(s, L.Enter(t)), waiterOf)
      ensures list == old(list) + [item]
      ensures s.waitQueue != [] ==> s.waitQueue[0] < |s.waiters| && ready == Wakes(s.waiters[s.waitQueue[0]])
    {
      hide L.Inv, L.Next, L.Enabled, Waiters, Distinct, V, Wakes;
      ghost var queue := listEmpty.waitQueue;
      QueueDistinct(s, waiterOf, queue, lock.semaphore);
      L.NextKeepsInv(s, L.Enter(t));
      AppendShared(s, t, item, waiterOf, queue, lock.semaphore);
      WaitersMean(s, waiterOf, queue, lock.semaphore);
      L.EnabledMeans(s, L.Enter(t));
      ghost var s' := L.Next(s, L.Enter(t));
      WaitersMean(s', waiterOf, if queue == [] then [] else queue[1..], lock.semaphore);
      lock.FinishAcquire(t);
      list := list + [item];
      ready := listEmpty.Signal(lock, t);
      forall u: Tid | u < |s'.pcs| && s'.pcs[u].Waiting?
        ensures waiterOf[u].Data() == s'.waiters[u]
      {
        if queue != [] && u != s.waitQueue[0] {
          assert waiterOf[u] != queue[0];
          assert waiterOf[u] in queue ==> waiterOf[u] in queue[1..];
        }
      }
    }

    method Return(t: Tid, ghost s: L.State<T>, ghost waiterOf: seq<Semaphore>) returns (ready: Option<Tid>)
      requires L.Inv(s) && Represents(s, waiterOf) && L.Enabled(s, L.Leave(t))
      modifies lock, lock.semaphore
      ensures L.Inv(L.Next(s, L.Leave(t))) && Represents(L.Next(s, L.Leave(t)), waiterOf)
      ensures ready == Wakes(s.lock.sem)
    {
      hide L.Inv, L.Next, L.Enabled, Waiters, Released, Wakes;
      L.NextKeepsInv(s, L.Leave(t));
      L.EnabledMeans(s, L.Leave(t));
      LeaveShared(s, t, waiterOf, listEmpty.waitQueue, lock.semaphore);
      WaitersMean(s, waiterOf, listEmpty.waitQueue, lock.semaphore);
      WaitersMean(L.Next(s, L.Leave(t)), waiterOf, listEmpty.waitQueue, lock.semaphore);
      L.LeaverHolds(s, t);
      ready := lock.Release(t);
    }

    /** `RemoveFront` from the return of the lock's `P` to its release: it takes the first item,
        or queues up a new waiter. */
    method RemoveFront(t: Tid, ghost s: L.State<T>, ghost waiterOf: seq<Semaphore>)
      returns (item: Option<T>, waiter: Semaphore?, ready: Option<Tid>, ghost waiterOf': seq<Semaphore>)
      requires L.Inv(s) && Represents(s, waiterOf) && L.Enabled(s, L.Enter(t)) && s.pcs[t].op.Remove?
      modifies this, lock, lock.semaphore, listEmpty
      ensures L.Inv(L.Next(s, L.Enter(t))) && Represents(L.Next(s, L.Enter(t)), waiterOf')
      ensures waiterOf' == if waiter == null then waiterOf else waiterOf[t := waiter]
      ensures old(list) == [] ==> item == None && waiter != null && fresh(waiter) && list == []
      ensures old(list) != [] ==> waiter == null && item == Some(old(list)[0]) && list == old(list)[1..]
      ensures ready == Wakes(s.lock.sem)
    {
      hide L.Inv, L.Next, L.Enabled, Waiters, Distinct, Released, Wakes;
      ghost var queue := listEmpty.waitQueue;
      QueueDistinct(s, waiterOf, queue, lock.semaphore);
      L.NextKeepsInv(s, L.Enter(t));
      WaitersMean(s, waiterOf, queue, lock.semaphore);
      L.EnabledMeans(s, L.Enter(t));
      ghost var s' := L.Next(s, L.Enter(t));
      lock.FinishAcquire(t);
      waiterOf' := waiterOf;
      if list == [] {
        waiter, ready := listEmpty.StartWait(lock, t);
        item := None;
        waiterOf' := waiterOf[t := waiter];
        WaitShared(s, t, waiterOf, queue, lock.semaphore, waiter);
        WaitersMean(s', waiterOf', queue + [waiter], lock.semaphore);
        assert forall u: Tid :: u < |s'.pcs| && u != t && s'.pcs[u].Waiting? ==> waiterOf'[u] == waiterOf[u];
      } else {
        item, waiter := Some(list[0]), null;
        list := list[1..];
        TakeShared(s, t, waiterOf, queue, lock.semaphore);
        WaitersMean(s', waiterOf, queue, lock.semaphore);
        ready := lock.Release(t);
      }
    }

    /** In `Condition::Wait`: one test of the thread's own semaphore. */
    method TestWaiter(t: Tid, waiter: Semaphore, ghost s: L.State<T>, ghost waiterOf: seq<Semaphore>) returns (sleeps: bool)
      requires L.Inv(s) && Represents(s, waiterOf) && L.Enabled(s, L.TestWaiter(t)) && waiter == waiterOf[t]
      modifies waiter
      ensures L.Inv(L.Next(s, L.TestWaiter(t))) && Represents(L.Next(s, L.TestWaiter(t)), waiterOf)
      ensures sleeps == L.Next(s, L.TestWaiter(t)).pcs[t].Waiting?
    {
      hide L.Inv, L.LockOk, L.WaitersOk;
      L.NextKeepsInv(s, L.TestWaiter(t));
      L.InvWaiters(s);
      L.TestWaiterMeans(s, t);
      sleeps := waiter.PTest(t);
    }
  }

  class SynchDisk<T(!new)> {
    const lock: Lock
    const semaphore: Semaphore
    var active: bool         // of the disk underneath
    var sectors: seq<T>

    ghost predicate Represents(s: D.State<T>)
      reads this, lock, lock.semaphore, semaphore
    {
      && lock.semaphore != semaphore && lock.Data() == s.lock && semaphore.Data() == s.completion
      && active == s.active && sectors == s.sectors
    }

    constructor (sectors: seq<T>, ghost threads: nat)
      ensures var s := D.State(FREE, SemData(0, []), false, sectors, [], 0, seq(threads, _ => D.Idle));
              D.Initial(s) && Represents(s)
    {
      lock := new Lock();
      semaphore := new Semaphore(0);
      active, this.sectors := false, sectors;
    }

    method TestLock(t: Tid, ghost start: seq<T>, ghost s: D.State<T>) returns (sleeps: bool)
      requires D.Inv(start, s) && Represents(s) && D.Enabled(s, D.TestLockSem(t))
      modifies lock.semaphore
      ensures D.Inv(start, D.Next(s, D.TestLockSem(t))) && Represents(D.Next(s, D.TestLockSem(t)))
      ensures sleeps == D.Next(s, D.TestLockSem(t)).pcs[t].Asleep?
    {
      hide D.Inv;
      D.NextKeepsInv(start, s, D.TestLockSem(t));
      sleeps := lock.TestAcquire(t);
    }

    /** From the return of the lock's `P` through the request to the first test of the completion semaphore. */
    method IssueRead(t: Tid, sector: nat, ghost start: seq<T>, ghost s: D.State<T>) returns (data: T, sleeps: bool)
      requires D.Inv(start, s) && Represents(s) && t < |s.pcs| && s.pcs[t] == D.InLock(D.Read(sector))
      modifies this, lock, semaphore
      ensures sector < |s.sectors| && D.Inv(start, D.Next(s, D.Issue(t))) && Represents(D.Next(s, D.Issue(t)))
      ensures !old(active) && active && data == old(sectors)[sector]
      ensures sleeps == D.Next(s, D.Issue(t)).pcs[t].DiskAsleep?
    {
      hide D.Inv;
      D.NextKeepsInv(start, s, D.Issue(t));
      lock.FinishAcquire(t);
      data := sectors[sector];
      active := true;
      sleeps := semaphore.PTest(t);
    }

    method IssueWrite(t: Tid, sector: nat, data: T, ghost start: seq<T>, ghost s: D.State<T>) returns (sleeps: bool)
      requires D.Inv(start, s) && Represents(s) && t < |s.pcs| && s.pcs[t] == D.InLock(D.Write(sector, data))
      modifies this, lock, semaphore
      ensures sector < |s.sectors| && D.Inv(start, D.Next(s, D.Issue(t))) && Represents(D.Next(s, D.Issue(t)))
      ensures !old(active) && active && sectors == old(sectors)[sector := data]
      ensures sleeps == D.Next(s, D.Issue(t)).pcs[t].DiskAsleep?
    {
      hide D.Inv;
      D.NextKeepsInv(start, s, D.Issue(t));
      lock.FinishAcquire(t);
      sectors := sectors[sector := data];
      active := true;
      sleeps := semaphore.PTest(t);
    }

    /** Another test of the completion semaphore, after having been woken there. */
    method TestCompletion(t: Tid, ghost start: seq<T>, ghost s: D.State<T>) returns (sleeps: bool)
      requires D.Inv(start, s) && Represents(s) && D.Enabled(s, D.TestCompletion(t))
      modifies semaphore
      ensures D.Inv(start, D.Next(s, D.TestCompletion(t))) && Represents(D.Next(s, D.TestCompletion(t)))
      ensures sleeps == D.Next(s, D.TestCompletion(t)).pcs[t].DiskAsleep?
    {
      hide D.Inv;
      D.NextKeepsInv(start, s, D.TestCompletion(t));
      sleeps := semaphore.PTest(t);
    }

    /** `Disk::CallBack`, then `SynchDisk::CallBack`. */
    method CallBack(ghost start: seq<T>, ghost s: D.State<T>) returns (ready: Option<Tid>)
      requires D.Inv(start, s) && Represents(s) && active
      modifies this, semaphore
      ensures D.Inv(start, D.Next(s, D.Interrupt)) && Represents(D.Next(s, D.Interrupt))
      ensures ready == Wakes(s.completion)
    {
      hide D.Inv;
      D.NextKeepsInv(start, s, D.Interrupt);
      active := false;
      ready := semaphore.Vee();
    }

    method Return(t: Tid, ghost start: seq<T>, ghost s: D.State<T>) returns (ready: Option<Tid>)
      requires D.Inv(start, s) && Represents(s) && D.Enabled(s, D.Return(t))
      modifies lock, lock.semaphore
      ensures D.Inv(start, D.Next(s, D.Return(t))) && Represents(D.Next(s, D.Return(t)))
      ensures s.pcs[t].request == s.interrupts && ready == Wakes(s.lock.sem)
    {
      hide D.Inv;
      D.NextKeepsInv(start, s, D.Return(t));
      D.ServedIsDone(start, s, t);
      ready := lock.Release(t);
    }
  }
}
