/** Locks (threads/synch.cc): a semaphore that starts at 1, and the thread that holds it. */
module Locks {
  import opened Common
  import opened Semaphores

  datatype LockData = LockData(sem: SemData, holder: Option<Tid>)

  const FREE := LockData(SemData(1, []), None)

  function TestLock(l: LockData, t: Tid): LockData { l.(sem := Test(l.sem, t)) }

  /** The assignment to `lockHolder`, which follows the return from `P`. */
  function Hold(l: LockData, t: Tid): LockData { l.(holder := Some(t)) }

  function Released(l: LockData): LockData { LockData(V(l.sem), None) }

  class Lock {
    const semaphore: Semaphore
    var lockHolder: Option<Tid>

    ghost function Data(): LockData
      reads this, semaphore
    {
      LockData(semaphore.Data(), lockHolder)
    }

    constructor ()
      ensures Data() == FREE && fresh(semaphore)
    {
      semaphore := new Semaphore(1);
      lockHolder := None;
    }

    /** One test of the semaphore in `Acquire`. */
    method TestAcquire(t: Tid) returns (sleeps: bool)
      requires t !in semaphore.queue
      modifies semaphore
      ensures sleeps == Blocks(old(Data()).sem) && Data() == TestLock(old(Data()), t)
    {
      sleeps := semaphore.PTest(t);
    }

    method FinishAcquire(t: Tid)
      modifies this
      ensures Data() == Hold(old(Data()), t)
    {
      lockHolder := Some(t);
    }

    method Release(t: Tid) returns (ready: Option<Tid>)
      requires lockHolder == Some(t)
      modifies this, semaphore
      ensures ready == Wakes(old(Data()).sem) && Data() == Released(old(Data()))
    {
      lockHolder := None;
      ready := semaphore.Vee();
    }
  }

  /** What every lock keeps. `inside` tells which threads are between `P` and `V`,
      `holding` which of them have also recorded themselves as holder. */
  ghost predicate LockInv<P(!new)>(l: LockData, pcs: seq<P>, asleep: P -> bool, woken: P -> bool,
                                   inside: P -> bool, holding: P -> bool) {
    && SemInv(l.sem, pcs, asleep, woken)
    && l.sem.value + Count(pcs, inside) == 1
    && (forall t: Tid :: l.holder == Some(t) <==> t < |pcs| && holding(pcs[t]))
    && (forall p :: holding(p) ==> inside(p))
    && (forall p :: inside(p) ==> !asleep(p) && !woken(p))
  }

  /** Mutual exclusion, from the count of the semaphore alone. */
  lemma MutualExclusion<P(!new)>(l: LockData, pcs: seq<P>, asleep: P -> bool, woken: P -> bool,
                                 inside: P -> bool, holding: P -> bool, t: Tid, u: Tid)
    requires LockInv(l, pcs, asleep, woken, inside, holding)
    requires t < |pcs| && u < |pcs| && inside(pcs[t]) && inside(pcs[u])
    ensures t == u && l.sem.value == 0
  {
    CountMember(pcs, inside, t);
    if t < u {
      CountTwo(pcs, inside, t, u);
    } else if u < t {
      CountTwo(pcs, inside, u, t);
    }
  }

  /** When nobody is inside or on the way in, the lock is free and nobody sleeps in its queue. */
  lemma QuietIsFree<P(!new)>(l: LockData, pcs: seq<P>, asleep: P -> bool, woken: P -> bool,
                             inside: P -> bool, holding: P -> bool)
    requires LockInv(l, pcs, asleep, woken, inside, holding)
    requires forall t: Tid :: t < |pcs| ==> !inside(pcs[t]) && !woken(pcs[t])
    ensures l == FREE && forall t: Tid :: t < |pcs| ==> !asleep(pcs[t])
  {
    CountNone(pcs, inside);
    NoneStranded(l.sem, pcs, asleep, woken);
    assert forall t: Tid :: l.holder != Some(t);
  }

  lemma FreeKeepsInv<P(!new)>(pcs: seq<P>, asleep: P -> bool, woken: P -> bool, inside: P -> bool, holding: P -> bool)
    requires forall t: Tid :: t < |pcs| ==> !asleep(pcs[t]) && !woken(pcs[t]) && !inside(pcs[t])
    requires forall p :: (holding(p) ==> inside(p)) && (inside(p) ==> !asleep(p) && !woken(p)) && !(asleep(p) && woken(p))
    ensures LockInv(FREE, pcs, asleep, woken, inside, holding)
  {
    CountNone(pcs, inside);
  }

  lemma AcquireKeepsInv<P(!new)>(l: LockData, pcs: seq<P>, asleep: P -> bool, woken: P -> bool,
                                 inside: P -> bool, holding: P -> bool, t: Tid, p: P)
    requires LockInv(l, pcs, asleep, woken, inside, holding)
    requires t < |pcs| && !asleep(pcs[t]) && !inside(pcs[t])
    requires asleep(p) == Blocks(l.sem) && inside(p) == !Blocks(l.sem) && !woken(p) && !holding(p)
    ensures t !in l.sem.queue
    ensures LockInv(TestLock(l, t), pcs[t := p], asleep, woken, inside, holding)
  {
    TestKeepsInv(l.sem, pcs, asleep, woken, t, p);
    CountUpdate(pcs, inside, t, p);
    HolderKept(l, pcs, asleep, woken, inside, holding, t, p);
  }

  lemma HolderKept<P(!new)>(l: LockData, pcs: seq<P>, asleep: P -> bool, woken: P -> bool,
                            inside: P -> bool, holding: P -> bool, t: Tid, p: P)
    requires LockInv(l, pcs, asleep, woken, inside, holding) && t < |pcs|
    requires holding(p) == holding(pcs[t])
    ensures forall u: Tid :: l.holder == Some(u) <==> u < |pcs| && holding(pcs[t := p][u])
  {
    forall u: Tid
      ensures l.holder == Some(u) <==> u < |pcs| && holding(pcs[t := p][u])
    {
      assert l.holder == Some(u) <==> u < |pcs| && holding(pcs[u]);
    }
  }

  /** The thread inside records itself as holder. */
  lemma HoldKeepsInv<P(!new)>(l: LockData, pcs: seq<P>, asleep: P -> bool, woken: P -> bool,
                              inside: P -> bool, holding: P -> bool, t: Tid, p: P)
    requires LockInv(l, pcs, asleep, woken, inside, holding)
    requires t < |pcs| && inside(pcs[t]) && holding(p)
    ensures LockInv(Hold(l, t), pcs[t := p], asleep, woken, inside, holding)
  {
    OtherKeepsInv(l.sem, pcs, asleep, woken, t, p);
    CountUpdate(pcs, inside, t, p);
    forall u: Tid
      ensures Hold(l, t).holder == Some(u) <==> u < |pcs| && holding(pcs[t := p][u])
    {
      if u != t && u < |pcs| && holding(pcs[u]) {
        MutualExclusion(l, pcs, asleep, woken, inside, holding, t, u);
      }
    }
  }

  /** The holder releases: it goes on to `p`, and the first sleeper, if any, goes on to `w`. */
  lemma ReleaseKeepsInv<P(!new)>(l: LockData, pcs: seq<P>, asleep: P -> bool, woken: P -> bool,
                                 inside: P -> bool, holding: P -> bool, t: Tid, p: P, w: P)
    requires LockInv(l, pcs, asleep, woken, inside, holding)
    requires t < |pcs| && holding(pcs[t])
    requires !inside(p) && !asleep(p) && !woken(p)
    requires l.sem.queue != [] ==> woken(w)
    ensures l.sem.queue != [] ==> l.sem.queue[0] < |pcs| && l.sem.queue[0] != t && asleep(pcs[l.sem.queue[0]])
    ensures var pcs1 := pcs[t := p];
            LockInv(Released(l), if l.sem.queue == [] then pcs1 else pcs1[l.sem.queue[0] := w],
                    asleep, woken, inside, holding)
  {
    OtherKeepsInv(l.sem, pcs, asleep, woken, t, p);
    CountUpdate(pcs, inside, t, p);
    var pcs1 := pcs[t := p];
    VKeepsInv(l.sem, pcs1, asleep, woken, w);
    forall u: Tid | u < |pcs1|
      ensures !holding(pcs1[u])
    {
      assert u != t && holding(pcs[u]) ==> l.holder == Some(u);
      assert l.holder == Some(t);
    }
    if l.sem.queue != [] {
      CountUpdate(pcs1, inside, l.sem.queue[0], w);
    }
  }

  /** A step that does not touch the lock. */
  lemma OtherKeepsLockInv<P(!new)>(l: LockData, pcs: seq<P>, asleep: P -> bool, woken: P -> bool,
                                   inside: P -> bool, holding: P -> bool, t: Tid, p: P)
    requires LockInv(l, pcs, asleep, woken, inside, holding) && t < |pcs|
    requires asleep(p) == asleep(pcs[t]) && woken(p) == woken(pcs[t])
    requires inside(p) == inside(pcs[t]) && holding(p) == holding(pcs[t])
    ensures LockInv(l, pcs[t := p], asleep, woken, inside, holding)
  {
    OtherKeepsInv(l.sem, pcs, asleep, woken, t, p);
    CountUpdate(pcs, inside, t, p);
    HolderKept(l, pcs, asleep, woken, inside, holding, t, p);
  }
}
