/** The synchronous disk (filesys/synchdisk.cc) run by any number of threads: a lock, one request to
    the asynchronous disk (machine/disk.cc) at a time, and a semaphore that its interrupt handler `V`s.
    Each action is one atomic segment, as in the list monitor. */
module SynchDiskProtocol {
  import opened Common
  import opened Semaphores
  import opened Locks

  datatype Op<D> = Read(sector: nat) | Write(sector: nat, data: D)

  datatype Pc<D> =
    | Idle
    | Ready(op: Op<D>)                        // about to test the lock's semaphore
    | Asleep(op: Op<D>)                       // asleep in the lock's queue
    | Woken(op: Op<D>)
    | InLock(op: Op<D>)                       // past `P` of the lock, about to issue the request
    | DiskAsleep(request: nat)                // its request is with the disk; asleep in the completion semaphore
    | DiskWoken(request: nat)                 // woken there, about to test again
    | Served(request: nat)                    // past `P` of the completion semaphore, about to release

  /** A request as the disk performed it: `seen` is what the sector held before. */
  datatype Event<D> = Event(op: Op<D>, seen: D)

  datatype State<D> = State(
    lock: LockData,
    completion: SemData,
    active: bool,                // Disk::active
    sectors: seq<D>,
    requests: seq<Event<D>>,     // every request issued, in order
    interrupts: nat,             // how many completion interrupts have fired
    pcs: seq<Pc<D>>)

  predicate IsAsleep<D>(p: Pc<D>) { p.Asleep? }
  predicate IsWoken<D>(p: Pc<D>) { p.Woken? }
  predicate IsInside<D>(p: Pc<D>) { p.InLock? || IsHolding(p) }
  predicate IsHolding<D>(p: Pc<D>) { p.DiskAsleep? || p.DiskWoken? || p.Served? }
  predicate IsDiskAsleep<D>(p: Pc<D>) { p.DiskAsleep? }
  predicate IsDiskWoken<D>(p: Pc<D>) { p.DiskWoken? }
  predicate IsServed<D>(p: Pc<D>) { p.Served? }

  datatype Action<D> =
    | Call(t: Tid, op: Op<D>)
    | TestLockSem(t: Tid)
    | Issue(t: Tid)            // record the holder, issue the request, first test of the completion semaphore
    | TestCompletion(t: Tid)
    | Return(t: Tid)           // release the lock
    | Interrupt                // Disk::CallBack, then SynchDisk::CallBack

  predicate Enabled<D>(s: State<D>, a: Action<D>) {
    match a
    case Call(t, op) => t < |s.pcs| && s.pcs[t].Idle? && op.sector < |s.sectors|
    case TestLockSem(t) => t < |s.pcs| && (s.pcs[t].Ready? || s.pcs[t].Woken?)
    case Issue(t) => t < |s.pcs| && s.pcs[t].InLock?
    case TestCompletion(t) => t < |s.pcs| && s.pcs[t].DiskWoken?
    case Return(t) => t < |s.pcs| && s.pcs[t].Served?
    case Interrupt => s.active
  }

  function Wake<D>(pcs: seq<Pc<D>>, d: SemData): seq<Pc<D>> {
    match Wakes(d)
    case None => pcs
    case Some(w) =>
      if w < |pcs| && pcs[w].Asleep? then pcs[w := Woken(pcs[w].op)]
      else if w < |pcs| && pcs[w].DiskAsleep? then pcs[w := DiskWoken(pcs[w].request)]
      else pcs
  }

  function Perform<D>(sectors: seq<D>, op: Op<D>): seq<D>
    requires op.sector < |sectors|
  {
    match op
    case Read(_) => sectors
    case Write(n, data) => sectors[n := data]
  }

  function Next<D>(s: State<D>, a: Action<D>): State<D>
    requires Enabled(s, a)
    requires a.Issue? ==> s.pcs[a.t].op.sector < |s.sectors|
  {
    match a
    case Call(t, op) =>
      s.(pcs := s.pcs[t := Ready(op)])
    case TestLockSem(t) =>
      s.(lock := TestLock(s.lock, t),
         pcs := s.pcs[t := if Blocks(s.lock.sem) then Asleep(s.pcs[t].op) else InLock(s.pcs[t].op)])
    case Issue(t) =>
      var op, r := s.pcs[t].op, |s.requests| + 1;
      s.(lock := Hold(s.lock, t), active := true,
         requests := s.requests + [Event(op, s.sectors[op.sector])], sectors := Perform(s.sectors, op),
         completion := Test(s.completion, t),
         pcs := s.pcs[t := if Blocks(s.completion) then DiskAsleep(r) else Served(r)])
    case TestCompletion(t) =>
      var r := s.pcs[t].request;
      s.(completion := Test(s.completion, t),
         pcs := s.pcs[t := if Blocks(s.completion) then DiskAsleep(r) else Served(r)])
    case Return(t) =>
      s.(lock := Released(s.lock), pcs := Wake(s.pcs[t := Idle], s.lock.sem))
    case Interrupt =>
      s.(active := false, interrupts := s.interrupts + 1,
         completion := V(s.completion), pcs := Wake(s.pcs, s.completion))
  }

  // ---------- The invariant ----------

  ghost predicate LockOk<D(!new)>(s: State<D>) {
    LockInv(s.lock, s.pcs, IsAsleep, IsWoken, IsInside, IsHolding)
  }

  ghost predicate CompletionOk<D(!new)>(s: State<D>) {
    && SemInv(s.completion, s.pcs, IsDiskAsleep, IsDiskWoken)
    // every holder of the lock that is not yet served is paid for by the disk or by the semaphore
    && s.completion.value + (if s.active then 1 else 0) + Count(s.pcs, IsServed) == Count(s.pcs, IsHolding)
  }

  /** Requests and interrupts alternate, and a thread knows which request is its own. */
  ghost predicate RequestsOk<D>(s: State<D>) {
    && |s.requests| == s.interrupts + (if s.active then 1 else 0)
    && (forall t: Tid :: t < |s.pcs| && IsHolding(s.pcs[t]) ==> s.pcs[t].request == |s.requests|)
    && (forall t: Tid :: t < |s.pcs| && s.pcs[t].Served? ==> s.pcs[t].request <= s.interrupts)
    && (forall t: Tid :: t < |s.pcs| && (s.pcs[t].Ready? || s.pcs[t].Asleep? || s.pcs[t].Woken? || s.pcs[t].InLock?) ==>
          s.pcs[t].op.sector < |s.sectors|)
  }

  /** The sectors after the first `k` requests. */
  function Replay<D>(start: seq<D>, requests: seq<Event<D>>): (r: seq<D>)
    requires forall e :: e in requests ==> e.op.sector < |start|
    ensures |r| == |start|
  {
    if requests == [] then start
    else
      var n := |requests| - 1;
      Perform(Replay(start, requests[..n]), requests[n].op)
  }

  /** The requests, one after the other, explain both the sectors and what every read saw. */
  ghost predicate Linearized<D>(start: seq<D>, s: State<D>) {
    && |s.sectors| == |start|
    && (forall e :: e in s.requests ==> e.op.sector < |start|)
    && s.sectors == Replay(start, s.requests)
    && (forall k :: 0 <= k < |s.requests| ==>
          s.requests[k].seen == Replay(start, s.requests[..k])[s.requests[k].op.sector])
  }

  ghost predicate Inv<D(!new)>(start: seq<D>, s: State<D>) {
    LockOk(s) && CompletionOk(s) && RequestsOk(s) && Linearized(start, s)
  }

  /** The assertions that the code makes on the way of each action. */
  ghost predicate AssertionsHold<D(!new)>(s: State<D>, a: Action<D>)
    requires Enabled(s, a)
  {
    match a
    case Call(_, _) => true
    case TestLockSem(t) => t !in s.lock.sem.queue
    case Issue(t) => !s.active && s.pcs[t].op.sector < |s.sectors| && t !in s.completion.queue
    case TestCompletion(t) => t !in s.completion.queue
    case Return(t) => s.lock.holder == Some(t)
    case Interrupt => true
  }

  /** A thread inside the lock that holds nothing else is alone with an idle disk. */
  lemma InsideAlone<D(!new)>(start: seq<D>, s: State<D>, t: Tid)
    requires Inv(start, s) && t < |s.pcs| && s.pcs[t].InLock?
    ensures !s.active && s.completion == SemData(0, []) && Count(s.pcs, IsHolding) == Count(s.pcs, IsServed) == 0
    ensures forall u: Tid :: u < |s.pcs| ==> !IsHolding(s.pcs[u])
  {
    var q := s.completion.queue;
    assert q != [] ==> q[0] in q;
    forall u: Tid | u < |s.pcs|
      ensures !IsHolding(s.pcs[u])
    {
      if IsInside(s.pcs[u]) {
        MutualExclusion(s.lock, s.pcs, IsAsleep, IsWoken, IsInside, IsHolding, t, u);
      }
    }
    CountNone(s.pcs, IsHolding);
    CountNone(s.pcs, IsServed);
    assert forall u: Tid :: u !in q;
  }

  /** Steps that issue no request do not touch the history. */
  lemma SameHistory<D>(start: seq<D>, s: State<D>, s': State<D>)
    requires Linearized(start, s) && s'.sectors == s.sectors && s'.requests == s.requests
    ensures Linearized(start, s')
  {
  }

  lemma TestLockStep<D(!new)>(start: seq<D>, s: State<D>, t: Tid)
    requires Inv(start, s) && Enabled(s, TestLockSem(t))
    ensures Inv(start, Next(s, TestLockSem(t))) && t !in s.lock.sem.queue
  {
    hide Linearized, LockInv, CompletionOk, TestLock;
    SameHistory(start, s, Next(s, TestLockSem(t)));
    var p := if Blocks(s.lock.sem) then Asleep(s.pcs[t].op) else InLock(s.pcs[t].op);
    AcquireKeepsInv(s.lock, s.pcs, IsAsleep, IsWoken, IsInside, IsHolding, t, p);
    OtherCompletion(s, t, p);
    SameCompletion(s.(pcs := s.pcs[t := p]), Next(s, TestLockSem(t)));
  }

  /** A thread that the completion semaphore does not concern. */
  lemma OtherCompletion<D(!new)>(s: State<D>, t: Tid, p: Pc<D>)
    requires CompletionOk(s) && t < |s.pcs|
    requires !IsDiskAsleep(s.pcs[t]) && !IsDiskWoken(s.pcs[t]) && !IsDiskAsleep(p) && !IsDiskWoken(p)
    requires IsServed(s.pcs[t]) == IsHolding(s.pcs[t]) && IsServed(p) == IsHolding(p)
    ensures CompletionOk(s.(pcs := s.pcs[t := p]))
  {
    OtherKeepsInv(s.completion, s.pcs, IsDiskAsleep, IsDiskWoken, t, p);
    CountUpdate(s.pcs, IsServed, t, p);
    CountUpdate(s.pcs, IsHolding, t, p);
  }

  lemma CallStep<D(!new)>(start: seq<D>, s: State<D>, t: Tid, op: Op<D>)
    requires Inv(start, s) && Enabled(s, Call(t, op))
    ensures Inv(start, Next(s, Call(t, op)))
  {
    hide Linearized, CompletionOk;
    SameHistory(start, s, Next(s, Call(t, op)));
    OtherKeepsLockInv(s.lock, s.pcs, IsAsleep, IsWoken, IsInside, IsHolding, t, Ready(op));
    OtherCompletion(s, t, Ready(op));
    SameCompletion(s.(pcs := s.pcs[t := Ready(op)]), Next(s, Call(t, op)));
  }

  lemma SameCompletion<D(!new)>(s: State<D>, s': State<D>)
    requires CompletionOk(s) && s'.completion == s.completion && s'.active == s.active && s'.pcs == s.pcs
    ensures CompletionOk(s')
  {
  }

  /** The request goes to an idle disk, so the thread sleeps until the interrupt. */
  lemma IssueCompletion<D(!new)>(start: seq<D>, s: State<D>, t: Tid)
    requires Inv(start, s) && Enabled(s, Issue(t))
    ensures !s.active && Blocks(s.completion) && s.pcs[t].op.sector < |s.sectors| && t !in s.completion.queue
    ensures CompletionOk(Next(s, Issue(t)))
  {
    hide LockInv, Linearized;
    InsideAlone(start, s, t);
    var p := DiskAsleep(|s.requests| + 1);
    TestKeepsInv(s.completion, s.pcs, IsDiskAsleep, IsDiskWoken, t, p);
    CountUpdate(s.pcs, IsServed, t, p);
    CountUpdate(s.pcs, IsHolding, t, p);
  }

  lemma IssueRequests<D(!new)>(start: seq<D>, s: State<D>, t: Tid)
    requires Inv(start, s) && Enabled(s, Issue(t)) && s.pcs[t].op.sector < |s.sectors|
    ensures RequestsOk(Next(s, Issue(t)))
  {
    hide LockOk, CompletionOk, Linearized;
    InsideAlone(start, s, t);
  }

  lemma IssueStep<D(!new)>(start: seq<D>, s: State<D>, t: Tid)
    requires Inv(start, s) && Enabled(s, Issue(t))
    ensures !s.active && s.pcs[t].op.sector < |s.sectors| && t !in s.completion.queue
    ensures Inv(start, Next(s, Issue(t)))
  {
    hide LockInv, CompletionOk, RequestsOk, Linearized, Hold;
    IssueCompletion(start, s, t);
    IssueRequests(start, s, t);
    HoldKeepsInv(s.lock, s.pcs, IsAsleep, IsWoken, IsInside, IsHolding, t, DiskAsleep(|s.requests| + 1));
    PerformExtends(start, s, s.pcs[t].op);
    var s1 := s.(requests := s.requests + [Event(s.pcs[t].op, s.sectors[s.pcs[t].op.sector])],
                 sectors := Perform(s.sectors, s.pcs[t].op));
    SameHistory(start, s1, Next(s, Issue(t)));
  }

  lemma PerformExtends<D>(start: seq<D>, s: State<D>, op: Op<D>)
    requires Linearized(start, s) && op.sector < |s.sectors|
    ensures Linearized(start, s.(requests := s.requests + [Event(op, s.sectors[op.sector])],
                                 sectors := Perform(s.sectors, op)))
  {
    var rs := s.requests + [Event(op, s.sectors[op.sector])];
    assert rs[..|s.requests|] == s.requests;
    forall k | 0 <= k < |rs|
      ensures rs[k].seen == Replay(start, rs[..k])[rs[k].op.sector]
    {
      if k < |s.requests| {
        assert rs[..k] == s.requests[..k];
      }
    }
  }

  lemma CompletionTested<D(!new)>(s: State<D>, t: Tid)
    requires CompletionOk(s) && Enabled(s, TestCompletion(t))
    ensures t !in s.completion.queue && CompletionOk(Next(s, TestCompletion(t)))
  {
    var r := s.pcs[t].request;
    var p := if Blocks(s.completion) then DiskAsleep(r) else Served(r);
    TestKeepsInv(s.completion, s.pcs, IsDiskAsleep, IsDiskWoken, t, p);
    CountUpdate(s.pcs, IsServed, t, p);
    CountUpdate(s.pcs, IsHolding, t, p);
  }

  /** A unit in the completion semaphore means that the request of the one holder has been completed. */
  lemma UnitMeansDone<D(!new)>(s: State<D>, t: Tid)
    requires LockOk(s) && CompletionOk(s) && RequestsOk(s) && Enabled(s, TestCompletion(t))
    ensures RequestsOk(Next(s, TestCompletion(t)))
  {
    OneHolder(s);
    hide LockOk, SemInv;
    assert s.completion.value >= 0 by {
      NotNegative(s);
    }
  }

  lemma NotNegative<D(!new)>(s: State<D>)
    requires CompletionOk(s)
    ensures s.completion.value >= 0
  {
  }

  lemma TestCompletionStep<D(!new)>(start: seq<D>, s: State<D>, t: Tid)
    requires Inv(start, s) && Enabled(s, TestCompletion(t))
    ensures t !in s.completion.queue
    ensures Inv(start, Next(s, TestCompletion(t)))
  {
    hide LockInv, CompletionOk, RequestsOk, Linearized, Test;
    SameHistory(start, s, Next(s, TestCompletion(t)));
    CompletionTested(s, t);
    UnitMeansDone(s, t);
    var r := s.pcs[t].request;
    var p := if Blocks(s.completion) then DiskAsleep(r) else Served(r);
    OtherKeepsLockInv(s.lock, s.pcs, IsAsleep, IsWoken, IsInside, IsHolding, t, p);
  }

  /** At most one thread holds the lock, so at most one request is unfinished. */
  lemma OneHolder<D(!new)>(s: State<D>)
    requires LockOk(s)
    ensures Count(s.pcs, IsHolding) <= 1
  {
    CountMonotone(s.pcs, IsHolding, IsInside);
  }

  lemma ReturnLock<D(!new)>(start: seq<D>, s: State<D>, t: Tid)
    requires Inv(start, s) && Enabled(s, Return(t))
    ensures s.lock.holder == Some(t) && LockOk(Next(s, Return(t)))
  {
    hide CompletionOk, RequestsOk, Linearized;
    var q := s.lock.sem.queue;
    if q != [] {
      assert q[0] in q;
    }
    var w := if q == [] then Idle else Woken(s.pcs[q[0]].op);
    ReleaseKeepsInv(s.lock, s.pcs, IsAsleep, IsWoken, IsInside, IsHolding, t, Idle, w);
  }

  lemma ReturnCompletion<D(!new)>(start: seq<D>, s: State<D>, t: Tid)
    requires Inv(start, s) && Enabled(s, Return(t))
    ensures CompletionOk(Next(s, Return(t)))
  {
    hide RequestsOk, Linearized;
    var q := s.lock.sem.queue;
    var pcs1 := s.pcs[t := Idle];
    OtherKeepsInv(s.completion, s.pcs, IsDiskAsleep, IsDiskWoken, t, Idle);
    CountUpdate(s.pcs, IsServed, t, Idle);
    CountUpdate(s.pcs, IsHolding, t, Idle);
    if q != [] {
      assert q[0] in q;
      hide LockOk, SemInv;
      var w := Woken(s.pcs[q[0]].op);
      OtherKeepsInv(s.completion, pcs1, IsDiskAsleep, IsDiskWoken, q[0], w);
      CountUpdate(pcs1, IsServed, q[0], w);
      CountUpdate(pcs1, IsHolding, q[0], w);
    }
  }

  lemma ReturnStep<D(!new)>(start: seq<D>, s: State<D>, t: Tid)
    requires Inv(start, s) && Enabled(s, Return(t))
    ensures s.lock.holder == Some(t)
    ensures Inv(start, Next(s, Return(t)))
  {
    hide Linearized, LockOk, CompletionOk, RequestsOk;
    SameHistory(start, s, Next(s, Return(t)));
    ReturnLock(start, s, t);
    ReturnCompletion(start, s, t);
    ReturnRequests(s, t);
  }

  lemma ReturnRequests<D(!new)>(s: State<D>, t: Tid)
    requires RequestsOk(s) && Enabled(s, Return(t))
    ensures RequestsOk(Next(s, Return(t)))
  {
    hide Released;
  }

  lemma InterruptLock<D(!new)>(start: seq<D>, s: State<D>)
    requires Inv(start, s) && s.active
    ensures LockOk(Next(s, Interrupt))
  {
    hide RequestsOk, Linearized;
    var q := s.completion.queue;
    if q != [] {
      assert q[0] in q;
      OtherKeepsLockInv(s.lock, s.pcs, IsAsleep, IsWoken, IsInside, IsHolding, q[0], DiskWoken(s.pcs[q[0]].request));
    }
  }

  lemma InterruptCompletion<D(!new)>(start: seq<D>, s: State<D>)
    requires Inv(start, s) && s.active
    ensures CompletionOk(Next(s, Interrupt))
  {
    hide LockOk, RequestsOk, Linearized;
    var q := s.completion.queue;
    if q == [] {
      VKeepsInv(s.completion, s.pcs, IsDiskAsleep, IsDiskWoken, Idle);
    } else {
      assert q[0] in q;
      var w := DiskWoken(s.pcs[q[0]].request);
      VKeepsInv(s.completion, s.pcs, IsDiskAsleep, IsDiskWoken, w);
      CountUpdate(s.pcs, IsServed, q[0], w);
      CountUpdate(s.pcs, IsHolding, q[0], w);
    }
  }

  lemma InterruptStep<D(!new)>(start: seq<D>, s: State<D>)
    requires Inv(start, s) && s.active
    ensures Inv(start, Next(s, Interrupt))
  {
    hide Linearized, LockOk, CompletionOk;
    SameHistory(start, s, Next(s, Interrupt));
    InterruptLock(start, s);
    InterruptCompletion(start, s);
    if s.completion.queue != [] {
      FirstSleeper(s);
    }
  }

  lemma FirstSleeper<D(!new)>(s: State<D>)
    requires CompletionOk(s) && s.completion.queue != []
    ensures s.completion.queue[0] < |s.pcs| && s.pcs[s.completion.queue[0]].DiskAsleep?
  {
    assert s.completion.queue[0] in s.completion.queue;
  }

  lemma NextKeepsInv<D(!new)>(start: seq<D>, s: State<D>, a: Action<D>)
    requires Inv(start, s) && Enabled(s, a)
    ensures AssertionsHold(s, a)
    ensures Inv(start, Next(s, a))
  {
    match a
    case Call(t, op) => CallStep(start, s, t, op);
    case TestLockSem(t) => TestLockStep(start, s, t);
    case Issue(t) => IssueStep(start, s, t);
    case TestCompletion(t) => TestCompletionStep(start, s, t);
    case Return(t) => ReturnStep(start, s, t);
    case Interrupt => InterruptStep(start, s);
  }

  // ---------- Over all runs ----------

  ghost predicate Initial<D>(s: State<D>) {
    && s.lock == FREE && s.completion == SemData(0, []) && !s.active && s.requests == [] && s.interrupts == 0
    && forall t :: 0 <= t < |s.pcs| ==> s.pcs[t].Idle?
  }

  ghost predicate IsRun<D(!new)>(ss: seq<State<D>>, acts: seq<Action<D>>) {
    && |ss| == |acts| + 1 && Initial(ss[0])
    && forall i :: 0 <= i < |acts| ==>
         && Enabled(ss[i], acts[i]) && (acts[i].Issue? ==> ss[i].pcs[acts[i].t].op.sector < |ss[i].sectors|)
         && ss[i + 1] == Next(ss[i], acts[i])
  }

  lemma {:induction false} RunKeepsInv<D(!new)>(ss: seq<State<D>>, acts: seq<Action<D>>, k: nat)
    requires IsRun(ss, acts) && k < |ss|
    ensures Inv(ss[0].sectors, ss[k])
  {
    hide Next, Enabled, Initial, Inv;
    if k == 0 {
      InitialInv(ss[0]);
    } else {
      RunKeepsInv(ss, acts, k - 1);
      NextKeepsInv(ss[0].sectors, ss[k - 1], acts[k - 1]);
    }
  }

  lemma InitialInv<D(!new)>(s: State<D>)
    requires Initial(s)
    ensures Inv(s.sectors, s)
  {
    FreeKeepsInv(s.pcs, IsAsleep, IsWoken, IsInside, IsHolding);
    CountNone(s.pcs, IsServed);
    CountNone(s.pcs, IsHolding);
  }

  /** In every reachable state: no assertion fails, in particular the disk is never asked while busy; a
      thread returns only after the interrupt for its own request; and a free lock means an idle disk. */
  lemma SynchDiskSafe<D(!new)>(ss: seq<State<D>>, acts: seq<Action<D>>, k: nat)
    requires IsRun(ss, acts) && k < |ss|
    ensures Inv(ss[0].sectors, ss[k])
    ensures k < |acts| ==> AssertionsHold(ss[k], acts[k])
    ensures k < |acts| && acts[k].Return? ==> ss[k].pcs[acts[k].t].request == ss[k].interrupts == |ss[k].requests|
    ensures ss[k].lock.sem.value == 1 ==> !ss[k].active && ss[k].completion == SemData(0, [])
  {
    RunKeepsInv(ss, acts, k);
    var s := ss[k];
    if k < |acts| {
      NextKeepsInv(ss[0].sectors, s, acts[k]);
    }
    CountMonotone(s.pcs, IsHolding, IsInside);
    var q := s.completion.queue;
    if q != [] {
      assert q[0] in q;
      CountMember(s.pcs, IsHolding, q[0]);
    }
  }

  /** A thread about to return has had the interrupt for its own request. */
  lemma ServedIsDone<D(!new)>(start: seq<D>, s: State<D>, t: Tid)
    requires Inv(start, s) && t < |s.pcs| && s.pcs[t].Served?
    ensures s.pcs[t].request == s.interrupts == |s.requests|
  {
    hide LockOk, CompletionOk, Linearized;
  }

  predicate CanStep<D>(p: Pc<D>) { p.Ready? || p.Woken? || p.InLock? || p.DiskWoken? || p.Served? }

  /** Such a thread really has a step to take. */
  lemma CanStepMeansEnabled<D(!new)>(s: State<D>, t: Tid)
    requires t < |s.pcs| && CanStep(s.pcs[t])
    ensures exists a: Action<D> :: !a.Call? && !a.Interrupt? && a.t == t && Enabled(s, a)
  {
    var a: Action<D> := match s.pcs[t]
      case Ready(_) => TestLockSem(t)
      case Woken(_) => TestLockSem(t)
      case InLock(_) => Issue(t)
      case DiskWoken(_) => TestCompletion(t)
      case _ => Return(t);
    assert Enabled(s, a);
  }

  /** When no thread can go on and no interrupt is due, every call has returned. */
  lemma QuietMeansDone<D(!new)>(start: seq<D>, s: State<D>, t: Tid)
    requires Inv(start, s) && t < |s.pcs| && !s.active
    requires forall u: Tid :: u < |s.pcs| ==> !CanStep(s.pcs[u])
    ensures s.pcs[t].Idle?
  {
    CountNone(s.pcs, IsServed);
    NoneStranded(s.completion, s.pcs, IsDiskAsleep, IsDiskWoken);
    if s.pcs[t].DiskAsleep? {
      CountMember(s.pcs, IsHolding, t);
    } else {
      forall u: Tid | u < |s.pcs|
        ensures !IsInside(s.pcs[u])
      {
        if IsHolding(s.pcs[u]) {
          CountMember(s.pcs, IsHolding, u);
        }
      }
      QuietIsFree(s.lock, s.pcs, IsAsleep, IsWoken, IsInside, IsHolding);
    }
  }
}
