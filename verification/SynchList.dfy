/** The monitor list of threads/synchlist.cc, on locks and condition variables (threads/synch.cc),
    run by any number of threads.

    Each action is one atomic segment: the code between two points where interrupts are re-enabled
    or the thread sleeps. A condition variable is a queue of waiters, each with a semaphore of its own. */
module SynchLists {
  import opened Common
  import opened Semaphores
  import opened Locks

  datatype Op<T> =
    | Append(item: T)
    | Remove(signalled: bool)   // whether the thread has been signalled since it last looked at the list

  /** Where a thread is. */
  datatype Pc<T> =
    | Idle
    | Ready(op: Op<T>)                          // about to test the lock's semaphore
    | Asleep(op: Op<T>)                         // asleep in the lock's queue
    | Woken(op: Op<T>)                          // woken there, about to test again
    | InLock(op: Op<T>)                         // past `P` of the lock, not yet its recorded holder
    | Leaving                                   // has appended and signalled, about to release
    | Waiting(asleep: bool, signalled: bool)    // in `Condition::Wait`, on its own semaphore

  datatype State<T> = State(
    lock: LockData,
    waitQueue: seq<Tid>,        // the waiters of `listEmpty` that nobody has signalled
    waiters: seq<SemData>,      // each thread's current waiter semaphore
    list: seq<T>,
    pcs: seq<Pc<T>>,
    appended: seq<T>,           // every item ever appended, in order
    removed: seq<T>)            // every item ever handed out, in order

  predicate IsAsleep<T>(p: Pc<T>) { p.Asleep? }
  predicate IsWoken<T>(p: Pc<T>) { p.Woken? }
  predicate IsInside<T>(p: Pc<T>) { p.InLock? || p.Leaving? }
  predicate IsHolding<T>(p: Pc<T>) { p.Leaving? }

  /** Signalled, and not yet looked at the list again. */
  predicate IsSignalled<T>(p: Pc<T>) {
    match p
    case Waiting(_, signalled) => signalled
    case Ready(Remove(signalled)) => signalled
    case Asleep(Remove(signalled)) => signalled
    case Woken(Remove(signalled)) => signalled
    case InLock(Remove(signalled)) => signalled
    case _ => false
  }

  predicate IsUnsignalledWaiter<T>(p: Pc<T>) { p.Waiting? && !p.signalled }

  datatype Action<T> =
    | Call(t: Tid, op: Op<T>)
    | TestLockSem(t: Tid)
    | Enter(t: Tid)          // the critical section, up to its next switch point
    | Leave(t: Tid)
    | TestWaiter(t: Tid)

  /** `List::Append` insists that the item is not on the list already. */
  predicate Enabled<T(==)>(s: State<T>, a: Action<T>) {
    && a.t < |s.pcs|
    && match a
       case Call(t, op) => s.pcs[t].Idle? && op != Remove(true)
       case TestLockSem(t) => s.pcs[t].Ready? || s.pcs[t].Woken?
       case Enter(t) => s.pcs[t].InLock? && (s.pcs[t].op.Append? ==> s.pcs[t].op.item !in s.list)
       case Leave(t) => s.pcs[t].Leaving?
       case TestWaiter(t) => s.pcs[t].Waiting? && !s.pcs[t].asleep
  }

  /** The threads after a release of the lock has woken the first sleeper. */
  function WakeLockSleeper<T>(pcs: seq<Pc<T>>, l: LockData): seq<Pc<T>> {
    match Wakes(l.sem)
    case None => pcs
    case Some(w) => if w < |pcs| && pcs[w].Asleep? then pcs[w := Woken(pcs[w].op)] else pcs
  }

  /** `Condition::Signal` by the holder of the lock: the first waiter's semaphore gets a `V`. */
  function Signalled<T>(s: State<T>): State<T>
    requires |s.waiters| == |s.pcs|
  {
    if s.waitQueue == [] || s.waitQueue[0] >= |s.pcs| then s
    else
      var w := s.waitQueue[0];
      s.(waitQueue := s.waitQueue[1..], waiters := s.waiters[w := V(s.waiters[w])],
         pcs := s.pcs[w := Waiting(false, true)])
  }

  /** The item appended, before the signal. */
  function Appended<T>(s: State<T>, t: Tid, item: T): State<T>
    requires t < |s.pcs|
  {
    s.(lock := Hold(s.lock, t), list := s.list + [item], appended := s.appended + [item], pcs := s.pcs[t := Leaving])
  }

  function Next<T>(s: State<T>, a: Action<T>): State<T>
    requires a.t < |s.pcs| && |s.waiters| == |s.pcs|
    requires a.TestLockSem? ==> s.pcs[a.t].Ready? || s.pcs[a.t].Woken?
    requires a.Enter? ==> s.pcs[a.t].InLock?
    requires a.TestWaiter? ==> s.pcs[a.t].Waiting?
  {
    match a
    case Call(t, op) =>
      s.(pcs := s.pcs[t := Ready(op)])
    case TestLockSem(t) =>
      s.(lock := TestLock(s.lock, t),
         pcs := s.pcs[t := if Blocks(s.lock.sem) then Asleep(s.pcs[t].op) else InLock(s.pcs[t].op)])
    case Enter(t) =>
      var held := Hold(s.lock, t);
      match s.pcs[t].op {
        case Append(item) =>
          Signalled(Appended(s, t, item))
        case Remove(_) =>
          if s.list == [] then
            s.(waitQueue := s.waitQueue + [t], waiters := s.waiters[t := SemData(0, [])],
               lock := Released(held), pcs := WakeLockSleeper(s.pcs[t := Waiting(false, false)], held))
          else
            s.(list := s.list[1..], removed := s.removed + [s.list[0]],
               lock := Released(held), pcs := WakeLockSleeper(s.pcs[t := Idle], held))
      }
    case Leave(t) =>
      s.(lock := Released(s.lock), pcs := WakeLockSleeper(s.pcs[t := Idle], s.lock))
    case TestWaiter(t) =>
      s.(waiters := s.waiters[t := Test(s.waiters[t], t)],
         pcs := s.pcs[t := if Blocks(s.waiters[t]) then Waiting(true, s.pcs[t].signalled) else Ready(Remove(true))])
  }

  // ---------- The invariant ----------

  ghost predicate LockOk<T(!new)>(s: State<T>) {
    LockInv(s.lock, s.pcs, IsAsleep, IsWoken, IsInside, IsHolding)
  }

  /** The wait queue holds exactly the waiters not yet signalled; a waiter's semaphore is 1 once it has been. */
  ghost predicate WaitersOk<T>(s: State<T>) {
    && |s.waiters| == |s.pcs|
    && Distinct(s.waitQueue)
    && (forall t: Tid :: t in s.waitQueue <==> t < |s.pcs| && IsUnsignalledWaiter(s.pcs[t]))
    && (forall t: Tid :: t < |s.pcs| && s.pcs[t].Waiting? ==>
          && s.waiters[t] == SemData(if s.pcs[t].signalled then 1 else 0, if s.pcs[t].asleep then [t] else [])
          && (s.pcs[t].asleep ==> !s.pcs[t].signalled))
  }

  /** No wakeup is lost: while some waiter is unsignalled, every item on the list has a signalled thread coming for it. */
  ghost predicate ItemsCovered<T>(s: State<T>) {
    s.waitQueue != [] ==> |s.list| <= Count(s.pcs, IsSignalled)
  }

  /** Items leave once, in the order in which they were appended. */
  ghost predicate Fifo<T>(s: State<T>) {
    s.appended == s.removed + s.list
  }

  ghost predicate Inv<T(!new)>(s: State<T>) {
    LockOk(s) && WaitersOk(s) && ItemsCovered(s) && Fifo(s)
  }

  /** The assertions that the code makes on the way of each action. */
  ghost predicate AssertionsHold<T(!new)>(s: State<T>, a: Action<T>)
    requires a.t < |s.pcs|
  {
    match a
    case TestLockSem(t) => Blocks(s.lock.sem) ==> t !in s.lock.sem.queue        // List::Append in Semaphore::P
    case Enter(t) => Hold(s.lock, t).holder == Some(t) && t !in s.waitQueue      // IsHeldByCurrentThread; List::Append
    case Leave(t) => s.lock.holder == Some(t)                                    // IsHeldByCurrentThread
    case TestWaiter(t) => t < |s.waiters| && t !in s.waiters[t].queue            // List::Append in Semaphore::P
    case Call(_, _) => true
  }

  lemma QueueDistinct<T(!new)>(s: State<T>)
    requires Inv(s)
    ensures Distinct(s.waitQueue)
  {
  }

  lemma EnabledMeans<T>(s: State<T>, a: Action<T>)
    requires Enabled(s, a)
    ensures a.t < |s.pcs|
    ensures a.Enter? ==> s.pcs[a.t].InLock? && (s.pcs[a.t].op.Append? ==> s.pcs[a.t].op.item !in s.list)
  {
  }

  lemma LeaverHolds<T(!new)>(s: State<T>, t: Tid)
    requires Inv(s) && Enabled(s, Leave(t))
    ensures s.lock.holder == Some(t)
  {
  }

  lemma PlainStep<T(!new)>(s: State<T>, t: Tid, p: Pc<T>)
    requires Inv(s) && t < |s.pcs|
    requires IsAsleep(p) == IsAsleep(s.pcs[t]) && IsWoken(p) == IsWoken(s.pcs[t])
    requires IsInside(p) == IsInside(s.pcs[t]) && IsHolding(p) == IsHolding(s.pcs[t])
    requires !p.Waiting? && !s.pcs[t].Waiting? && (IsSignalled(s.pcs[t]) ==> IsSignalled(p))
    ensures Inv(s.(pcs := s.pcs[t := p]))
  {
    OtherKeepsLockInv(s.lock, s.pcs, IsAsleep, IsWoken, IsInside, IsHolding, t, p);
    CountUpdate(s.pcs, IsSignalled, t, p);
  }

  lemma TestLockStep<T(!new)>(s: State<T>, t: Tid)
    requires Inv(s) && Enabled(s, TestLockSem(t))
    ensures Inv(Next(s, TestLockSem(t))) && t !in s.lock.sem.queue
  {
    hide LockInv, WaitersOk, TestLock;
    var p := if Blocks(s.lock.sem) then Asleep(s.pcs[t].op) else InLock(s.pcs[t].op);
    AcquireKeepsInv(s.lock, s.pcs, IsAsleep, IsWoken, IsInside, IsHolding, t, p);
    CountUpdate(s.pcs, IsSignalled, t, p);
    WaitersCover(s);
    WaitersKept(s, Next(s, TestLockSem(t)));
  }

  lemma WaitersCover<T>(s: State<T>)
    requires WaitersOk(s)
    ensures |s.waiters| == |s.pcs|
  {
  }

  lemma AppendLock<T(!new)>(s: State<T>, t: Tid)
    requires Inv(s) && Enabled(s, Enter(t)) && s.pcs[t].op.Append?
    ensures LockOk(Next(s, Enter(t)))
  {
    hide ItemsCovered, Fifo;
    HoldKeepsInv(s.lock, s.pcs, IsAsleep, IsWoken, IsInside, IsHolding, t, Leaving);
    if s.waitQueue != [] {
      var w := s.waitQueue[0];
      assert w in s.waitQueue;
      OtherKeepsLockInv(Hold(s.lock, t), s.pcs[t := Leaving], IsAsleep, IsWoken, IsInside, IsHolding, w, Waiting(false, true));
    }
  }

  lemma AppendWaiters<T(!new)>(s: State<T>, t: Tid)
    requires Inv(s) && Enabled(s, Enter(t)) && s.pcs[t].op.Append?
    ensures WaitersOk(Next(s, Enter(t)))
  {
    hide LockOk, ItemsCovered, Fifo;
    var s1 := Appended(s, t, s.pcs[t].op.item);
    WaitersKept(s, s1);
    if s.waitQueue != [] {
      SignalKeepsWaiters(s1);
    }
  }

  lemma AppendCovered<T(!new)>(s: State<T>, t: Tid)
    requires Inv(s) && Enabled(s, Enter(t)) && s.pcs[t].op.Append?
    ensures ItemsCovered(Next(s, Enter(t)))
  {
    hide LockOk, Fifo;
    CountUpdate(s.pcs, IsSignalled, t, Leaving);
    if s.waitQueue != [] {
      var w := s.waitQueue[0];
      assert w in s.waitQueue;
      CountUpdate(s.pcs[t := Leaving], IsSignalled, w, Waiting(false, true));
    }
  }

  /** The thread inside appends and signals. */
  lemma AppendStep<T(!new)>(s: State<T>, t: Tid)
    requires Inv(s) && Enabled(s, Enter(t)) && s.pcs[t].op.Append?
    ensures Inv(Next(s, Enter(t)))
  {
    hide LockOk, WaitersOk, ItemsCovered;
    AppendLock(s, t);
    AppendWaiters(s, t);
    AppendCovered(s, t);
    assert s.appended + [s.pcs[t].op.item] == s.removed + (s.list + [s.pcs[t].op.item]);
  }

  lemma SignalKeepsWaiters<T>(s: State<T>)
    requires WaitersOk(s) && s.waitQueue != []
    ensures WaitersOk(Signalled(s))
  {
    var w, q := s.waitQueue[0], s.waitQueue;
    assert w in q;
    var s' := Signalled(s);
    forall t: Tid
      ensures t in s'.waitQueue <==> t < |s'.pcs| && IsUnsignalledWaiter(s'.pcs[t])
    {
      assert t in q <==> t == w || t in q[1..];
      assert w !in q[1..];
    }
  }

  /** After the holder has released, the first sleeper of the lock may have been woken. */
  lemma ReleaseStep<T(!new)>(s: State<T>, t: Tid, p: Pc<T>)
    requires Inv(s) && t < |s.pcs| && IsHolding(s.pcs[t])
    requires p.Idle? || p == Waiting(false, false)
    ensures LockInv(Released(s.lock), WakeLockSleeper(s.pcs[t := p], s.lock), IsAsleep, IsWoken, IsInside, IsHolding)
  {
    var q := s.lock.sem.queue;
    if q == [] {
      ReleaseKeepsInv(s.lock, s.pcs, IsAsleep, IsWoken, IsInside, IsHolding, t, p, p);
    } else {
      assert q[0] in q;
      var w := Woken(s.pcs[q[0]].op);
      ReleaseKeepsInv(s.lock, s.pcs, IsAsleep, IsWoken, IsInside, IsHolding, t, p, w);
    }
  }

  /** Waking a sleeper of the lock concerns neither the waiters nor the count of signalled threads. */
  lemma WakeKeepsRest<T>(pcs: seq<Pc<T>>, l: LockData)
    ensures var pcs' := WakeLockSleeper(pcs, l);
            && |pcs'| == |pcs| && Count(pcs', IsSignalled) == Count(pcs, IsSignalled)
            && forall t: Tid :: t < |pcs| ==> pcs'[t] == pcs[t] || (!pcs[t].Waiting? && !pcs'[t].Waiting?)
  {
    if l.sem.queue != [] && l.sem.queue[0] < |pcs| && pcs[l.sem.queue[0]].Asleep? {
      var w := l.sem.queue[0];
      CountUpdate(pcs, IsSignalled, w, Woken(pcs[w].op));
    }
  }

  /** A change that concerns no waiter. */
  lemma WaitersKept<T>(s: State<T>, s': State<T>)
    requires WaitersOk(s) && s'.waitQueue == s.waitQueue && s'.waiters == s.waiters && |s'.pcs| == |s.pcs|
    requires forall t: Tid :: t < |s.pcs| ==> s'.pcs[t] == s.pcs[t] || (!s.pcs[t].Waiting? && !s'.pcs[t].Waiting?)
    ensures WaitersOk(s') && |s.waiters| == |s.pcs|
  {
  }

  lemma LeaveStep<T(!new)>(s: State<T>, t: Tid)
    requires Inv(s) && Enabled(s, Leave(t))
    ensures Inv(Next(s, Leave(t)))
  {
    ReleaseStep(s, t, Idle);
    CountUpdate(s.pcs, IsSignalled, t, Idle);
    WakeKeepsRest(s.pcs[t := Idle], s.lock);
  }

  /** The thread inside finds an item and takes it. */
  lemma TakeStep<T(!new)>(s: State<T>, t: Tid)
    requires Inv(s) && Enabled(s, Enter(t)) && s.pcs[t].op.Remove? && s.list != []
    ensures Inv(Next(s, Enter(t)))
  {
    hide LockInv, Released, Hold, WaitersOk, WakeLockSleeper;
    ReleaseHeld(s, t, Idle);
    CountUpdate(s.pcs, IsSignalled, t, Idle);
    WakeKeepsRest(s.pcs[t := Idle], Hold(s.lock, t));
    TakeWaiters(s, t);
    assert s.list == [s.list[0]] + s.list[1..];
  }

  lemma TakeWaiters<T(!new)>(s: State<T>, t: Tid)
    requires WaitersOk(s) && Enabled(s, Enter(t)) && s.pcs[t].op.Remove? && s.list != []
    ensures WaitersOk(Next(s, Enter(t)))
  {
    hide WaitersOk, Released, Hold, WakeLockSleeper;
    assert |s.waiters| == |s.pcs| by {
      WaitersKept(s, s);
    }
    WakeKeepsRest(s.pcs[t := Idle], Hold(s.lock, t));
    WaitersKept(s, Next(s, Enter(t)));
  }

  lemma WaitQueues<T(!new)>(s: State<T>, t: Tid)
    requires Inv(s) && Enabled(s, Enter(t)) && s.pcs[t].op.Remove? && s.list == []
    ensures WaitersOk(Next(s, Enter(t))) && t !in s.waitQueue
  {
    hide LockOk, ItemsCovered, Fifo, Released, Hold;
    WakeKeepsRest(s.pcs[t := Waiting(false, false)], Hold(s.lock, t));
    var s' := Next(s, Enter(t));
    assert t !in s.waitQueue;
    forall u: Tid
      ensures u in s'.waitQueue <==> u < |s'.pcs| && IsUnsignalledWaiter(s'.pcs[u])
    {
      assert u in s.waitQueue <==> u < |s.pcs| && IsUnsignalledWaiter(s.pcs[u]);
    }
  }

  /** The thread inside finds the list empty and waits. */
  lemma WaitStep<T(!new)>(s: State<T>, t: Tid)
    requires Inv(s) && Enabled(s, Enter(t)) && s.pcs[t].op.Remove? && s.list == []
    ensures Inv(Next(s, Enter(t))) && t !in s.waitQueue
  {
    ReleaseHeld(s, t, Waiting(false, false));
    WaitQueues(s, t);
    hide LockInv, WaitersOk;
  }

  lemma ReleaseHeld<T(!new)>(s: State<T>, t: Tid, p: Pc<T>)
    requires LockOk(s) && t < |s.pcs| && s.pcs[t].InLock?
    requires p.Idle? || p == Waiting(false, false)
    ensures LockInv(Released(Hold(s.lock, t)), WakeLockSleeper(s.pcs[t := p], Hold(s.lock, t)),
                    IsAsleep, IsWoken, IsInside, IsHolding)
  {
    HoldKeepsInv(s.lock, s.pcs, IsAsleep, IsWoken, IsInside, IsHolding, t, Leaving);
    var l, pcs := Hold(s.lock, t), s.pcs[t := Leaving];
    assert pcs[t := p] == s.pcs[t := p];
    var q := l.sem.queue;
    if q != [] {
      assert q[0] in q;
    }
    ReleaseKeepsInv(l, pcs, IsAsleep, IsWoken, IsInside, IsHolding, t, p, if q == [] then p else Woken(pcs[q[0]].op));
  }

  /** A waiter's test of its own semaphore blocks exactly if it has not been signalled. */
  lemma TestWaiterMeans<T>(s: State<T>, t: Tid)
    requires WaitersOk(s) && Enabled(s, TestWaiter(t))
    ensures |s.waiters| == |s.pcs| && t !in s.waiters[t].queue && Blocks(s.waiters[t]) == !s.pcs[t].signalled
    ensures Next(s, TestWaiter(t)).pcs[t] == if s.pcs[t].signalled then Ready(Remove(true)) else Waiting(true, false)
  {
  }

  lemma TestWaiterWaiters<T>(s: State<T>, t: Tid)
    requires WaitersOk(s) && Enabled(s, TestWaiter(t))
    ensures |s.waiters| == |s.pcs| && WaitersOk(Next(s, TestWaiter(t)))
  {
    var s' := Next(s, TestWaiter(t));
    forall u: Tid
      ensures u in s'.waitQueue <==> u < |s'.pcs| && IsUnsignalledWaiter(s'.pcs[u])
    {
      assert u in s.waitQueue <==> u < |s.pcs| && IsUnsignalledWaiter(s.pcs[u]);
    }
  }

  lemma TestWaiterStep<T(!new)>(s: State<T>, t: Tid)
    requires Inv(s) && Enabled(s, TestWaiter(t))
    ensures Inv(Next(s, TestWaiter(t))) && AssertionsHold(s, TestWaiter(t))
  {
    hide LockInv, WaitersOk;
    TestWaiterMeans(s, t);
    TestWaiterWaiters(s, t);
    var p := if Blocks(s.waiters[t]) then Waiting(true, s.pcs[t].signalled) else Ready(Remove(true));
    OtherKeepsLockInv(s.lock, s.pcs, IsAsleep, IsWoken, IsInside, IsHolding, t, p);
    CountUpdate(s.pcs, IsSignalled, t, p);
  }

  lemma NextKeepsInv<T(!new)>(s: State<T>, a: Action<T>)
    requires Inv(s) && Enabled(s, a)
    ensures Inv(Next(s, a)) && AssertionsHold(s, a)
  {
    match a
    case Call(t, op) => PlainStep(s, t, Ready(op));
    case TestLockSem(t) => TestLockStep(s, t);
    case Enter(t) =>
      if s.pcs[t].op.Append? {
        AppendStep(s, t);
      } else if s.list == [] {
        WaitStep(s, t);
      } else {
        TakeStep(s, t);
      }
    case Leave(t) => LeaveStep(s, t);
    case TestWaiter(t) => TestWaiterStep(s, t);
  }

  // ---------- Over all runs ----------

  ghost predicate Initial<T>(s: State<T>) {
    && s.lock == FREE && s.waitQueue == [] && s.list == s.appended == s.removed == []
    && |s.waiters| == |s.pcs| && forall t :: 0 <= t < |s.pcs| ==> s.pcs[t].Idle?
  }

  ghost predicate IsRun<T(!new)>(ss: seq<State<T>>, acts: seq<Action<T>>) {
    && |ss| == |acts| + 1 && Initial(ss[0])
    && forall i :: 0 <= i < |acts| ==>
         |ss[i].waiters| == |ss[i].pcs| && Enabled(ss[i], acts[i]) && ss[i + 1] == Next(ss[i], acts[i])
  }

  lemma {:induction false} RunKeepsInv<T(!new)>(ss: seq<State<T>>, acts: seq<Action<T>>, k: nat)
    requires IsRun(ss, acts) && k < |ss|
    ensures Inv(ss[k])
    ensures k < |acts| ==> AssertionsHold(ss[k], acts[k])
  {
    if k == 0 {
      FreeKeepsInv(ss[0].pcs, IsAsleep, IsWoken, IsInside, IsHolding);
    } else {
      RunKeepsInv(ss, acts, k - 1);
      NextKeepsInv(ss[k - 1], acts[k - 1]);
    }
    if k < |acts| {
      NextKeepsInv(ss[k], acts[k]);
    }
  }

  /** Only its own test changes what a signalled waiter is about to do. */
  lemma SignalledStays<T(!new)>(s: State<T>, a: Action<T>, t: Tid)
    requires Inv(s) && Enabled(s, a) && t < |s.pcs| && s.pcs[t] == Waiting(false, true) && a != TestWaiter(t)
    ensures t < |Next(s, a).pcs| && Next(s, a).pcs[t] == Waiting(false, true)
  {
    hide LockOk, ItemsCovered, Fifo;
    assert a.t != t;
    assert t !in s.waitQueue;
    assert s.waitQueue != [] ==> s.waitQueue[0] in s.waitQueue;
  }

  /** The signal of an `Append` reaches the first waiter, whether or not that sleeps already; one that sleeps is woken. */
  lemma SignalReaches<T(!new)>(s: State<T>, u: Tid)
    requires Inv(s) && Enabled(s, Enter(u)) && s.pcs[u].op.Append? && s.waitQueue != []
    ensures var t := s.waitQueue[0];
            && t < |s.pcs| && t < |Next(s, Enter(u)).pcs| && s.pcs[t].Waiting?
            && Wakes(s.waiters[t]) == (if s.pcs[t].asleep then Some(t) else None)
            && Next(s, Enter(u)).pcs[t] == Waiting(false, true)
  {
    hide LockOk, ItemsCovered, Fifo;
    assert s.waitQueue[0] in s.waitQueue;
  }

  /** In every run, a signal given to a waiter, before or after it went to sleep on its semaphore, is kept
      for it: whatever happens in between, its next test of the semaphore lets it go on to the lock. */
  lemma {:induction false} SignalIsKept<T(!new)>(ss: seq<State<T>>, acts: seq<Action<T>>, i: nat, k: nat, t: Tid)
    requires IsRun(ss, acts) && i < k < |ss|
    requires acts[i].Enter? && ss[i].pcs[acts[i].t].op.Append? && ss[i].waitQueue != [] && ss[i].waitQueue[0] == t
    requires forall j :: i < j < k ==> acts[j] != TestWaiter(t)
    ensures Inv(ss[k]) && t < |ss[k].pcs| && ss[k].pcs[t] == Waiting(false, true)
    ensures k < |acts| && acts[k] == TestWaiter(t) ==> ss[k + 1].pcs[t] == Ready(Remove(true))
  {
    hide Inv, Next, Enabled, Initial;
    RunKeepsInv(ss, acts, i);
    RunKeepsInv(ss, acts, k - 1);
    RunKeepsInv(ss, acts, k);
    if k == i + 1 {
      SignalReaches(ss[i], acts[i].t);
    } else {
      SignalIsKept(ss, acts, i, k - 1, t);
      SignalledStays(ss[k - 1], acts[k - 1], t);
    }
    if k < |acts| && acts[k] == TestWaiter(t) {
      InvWaiters(ss[k]);
      TestWaiterMeans(ss[k], t);
    }
  }

  lemma InvWaiters<T(!new)>(s: State<T>)
    requires Inv(s)
    ensures WaitersOk(s)
  {
  }

  /** A thread that has something to do without being woken by another. */
  predicate CanStep<T>(p: Pc<T>) {
    match p
    case Idle => false
    case Asleep(_) => false
    case Waiting(asleep, _) => !asleep
    case _ => true
  }

  /** Such a thread really has a step to take; only an append of an item that is on the list already stops it. */
  lemma CanStepMeansEnabled<T(!new)>(s: State<T>, t: Tid)
    requires t < |s.pcs| && CanStep(s.pcs[t])
    requires s.pcs[t].InLock? && s.pcs[t].op.Append? ==> s.pcs[t].op.item !in s.list
    ensures exists a: Action<T> :: a.t == t && !a.Call? && Enabled(s, a)
  {
    var a: Action<T> := match s.pcs[t]
      case Ready(_) => TestLockSem(t)
      case Woken(_) => TestLockSem(t)
      case InLock(_) => Enter(t)
      case Leaving => Leave(t)
      case _ => TestWaiter(t);
    assert Enabled(s, a);
  }

  /** When no thread can go on, nobody is stranded: whoever is left waits on an empty list. */
  lemma QuietMeansEmpty<T(!new)>(s: State<T>, t: Tid)
    requires Inv(s) && t < |s.pcs|
    requires forall u: Tid :: u < |s.pcs| ==> !CanStep(s.pcs[u])
    ensures s.lock == FREE
    ensures !s.pcs[t].Idle? ==> s.pcs[t].Waiting? && t in s.waitQueue && s.list == []
  {
    QuietIsFree(s.lock, s.pcs, IsAsleep, IsWoken, IsInside, IsHolding);
    assert forall u: Tid :: u < |s.pcs| ==> !IsSignalled(s.pcs[u]);
    CountNone(s.pcs, IsSignalled);
  }
}
