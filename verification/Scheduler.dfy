/** Threads and the FIFO scheduler (threads/scheduler.cc, threads/thread.cc) as a step system.
    A context switch is a change of `current` with interrupts off; stacks are not modelled. */
module Scheduling {
  import opened Common
  import opened Semaphores

  datatype Status = JustCreated | Running | Ready | Blocked

  /** What the CPU is doing. */
  datatype Mode =
    | InThread                     // the current thread runs its own code
    | Switched                     // just past SWITCH, `CheckToBeDestroyed` still to come
    | Sleeping(finishing: bool)    // the current thread is in `Thread::Sleep`, looking for another one

  datatype Kernel = Kernel(
    current: Tid,
    mode: Mode,
    ready: seq<Tid>,
    status: seq<Status>,           // of every thread ever created
    queues: seq<seq<Tid>>,         // the sleepers of every semaphore
    toBeDestroyed: Option<Tid>,
    destroyed: set<Tid>)

  datatype Action =
    | Fork(t: Tid)
    | Yield
    | SleepOn(q: nat)      // `Semaphore::P` finds the value 0
    | Finish
    | Wake(q: nat)         // `Semaphore::V`, by the current thread or by an interrupt handler
    | Dispatch             // `Sleep` has found a thread to run
    | Reap                 // `CheckToBeDestroyed`

  predicate Enabled(s: Kernel, a: Action) {
    && s.current < |s.status|
    && match a
       case Fork(t) => s.mode.InThread? && t < |s.status| && s.status[t].JustCreated?
       case Yield => s.mode.InThread?
       case SleepOn(q) => s.mode.InThread? && q < |s.queues|
       case Finish => s.mode.InThread?
       case Wake(q) => !s.mode.Switched? && q < |s.queues| && (s.queues[q] != [] ==> s.queues[q][0] < |s.status|)
       case Dispatch => s.mode.Sleeping? && s.ready != [] && s.ready[0] < |s.status|
       case Reap => s.mode.Switched?
  }

  function MadeReady(s: Kernel, t: Tid): Kernel
    requires t < |s.status|
  {
    s.(status := s.status[t := Ready], ready := s.ready + [t])
  }

  function SwitchedTo(s: Kernel, next: Tid, finishing: bool): Kernel
    requires next < |s.status|
  {
    s.(toBeDestroyed := if finishing then Some(s.current) else s.toBeDestroyed,
       current := next, status := s.status[next := Running], mode := Switched)
  }

  function Next(s: Kernel, a: Action): Kernel
    requires Enabled(s, a)
  {
    match a
    case Fork(t) => MadeReady(s, t)
    case Yield =>
      if s.ready == [] || s.ready[0] >= |s.status| then s
      else SwitchedTo(MadeReady(s.(ready := s.ready[1..]), s.current), s.ready[0], false)
    case SleepOn(q) =>
      s.(queues := s.queues[q := s.queues[q] + [s.current]], status := s.status[s.current := Blocked],
         mode := Sleeping(false))
    case Finish =>
      s.(status := s.status[s.current := Blocked], mode := Sleeping(true))
    case Wake(q) =>
      if s.queues[q] == [] then s
      else MadeReady(s.(queues := s.queues[q := s.queues[q][1..]]), s.queues[q][0])
    case Dispatch =>
      SwitchedTo(s.(ready := s.ready[1..]), s.ready[0], s.mode.finishing)
    case Reap =>
      s.(mode := InThread, toBeDestroyed := None,
         destroyed := s.destroyed + if s.toBeDestroyed.Some? then {s.toBeDestroyed.value} else {})
  }

  // ---------- Every thread is in one place ----------

  function Sleepers(queues: seq<seq<Tid>>): multiset<Tid> {
    if queues == [] then multiset{} else Sleepers(queues[..|queues| - 1]) + multiset(queues[|queues| - 1])
  }

  /** The threads that some list holds: ready to run, or asleep on a semaphore. */
  predicate IsListed(s: Kernel, t: Tid) {
    && t < |s.status| && !s.status[t].JustCreated? && t !in s.destroyed && s.toBeDestroyed != Some(t)
    && (t == s.current ==> s.mode == Sleeping(false))
  }

  /** How often all the lists together hold a thread. */
  function Places(s: Kernel, t: Tid): nat {
    multiset(s.ready)[t] + Sleepers(s.queues)[t]
  }

  /** All lists together hold each thread that should be listed exactly once, and no other. */
  ghost predicate PlacesOk(s: Kernel) {
    forall t: Tid :: Places(s, t) == if IsListed(s, t) then 1 else 0
  }

  /** The status of a thread tells which list it is on. */
  ghost predicate StatusOk(s: Kernel) {
    && (forall t: Tid :: t in s.ready ==> t < |s.status| && s.status[t].Ready?)
    && (forall t: Tid :: t in Sleepers(s.queues) ==> t < |s.status| && s.status[t].Blocked?)
  }

  /** The current thread is alive; a finished one waits for its destruction only across the switch. */
  ghost predicate CurrentOk(s: Kernel) {
    && s.current < |s.status| && s.current !in s.destroyed && s.toBeDestroyed != Some(s.current)
    && (!s.mode.Sleeping? ==> s.status[s.current].Running?)
    && !s.status[s.current].JustCreated?
    && (s.toBeDestroyed.Some? ==> s.mode.Switched? && s.toBeDestroyed.value < |s.status|
                                  && s.toBeDestroyed.value !in s.destroyed
                                  && !s.status[s.toBeDestroyed.value].JustCreated?)
    && (forall t: Tid :: t in s.destroyed ==> t < |s.status| && !s.status[t].JustCreated?)
  }

  ghost predicate Inv(s: Kernel) {
    PlacesOk(s) && StatusOk(s) && CurrentOk(s)
  }

  /** The assertions that the code makes on the way of each action. */
  ghost predicate AssertionsHold(s: Kernel, a: Action)
    requires Enabled(s, a)
  {
    match a
    case Fork(t) => t !in s.ready                                                  // List::Append
    case Yield => s.current !in s.ready
    case SleepOn(q) => s.current !in s.queues[q]
    case Finish => true
    case Wake(q) => s.queues[q] != [] ==> s.queues[q][0] !in s.ready
    case Dispatch => s.mode.finishing ==> s.toBeDestroyed == None && s.ready[0] != s.current   // Scheduler::Run
    case Reap => s.toBeDestroyed != Some(s.current)                                // Thread::~Thread
  }

  lemma {:induction false} SleepersUpdate(queues: seq<seq<Tid>>, q: nat, new_: seq<Tid>, t: Tid)
    requires q < |queues|
    ensures Sleepers(queues[q := new_])[t] + multiset(queues[q])[t] == Sleepers(queues)[t] + multiset(new_)[t]
  {
    var n := |queues| - 1;
    if q == n {
      assert queues[q := new_][..n] == queues[..n];
    } else {
      assert queues[q := new_][..n] == queues[..n][q := new_];
      SleepersUpdate(queues[..n], q, new_, t);
    }
  }

  lemma SleepersMember(queues: seq<seq<Tid>>, q: nat, t: Tid)
    requires q < |queues| && t in queues[q]
    ensures t in Sleepers(queues)
  {
    SleepersUpdate(queues, q, [], t);
    assert t in multiset(queues[q]);
  }

  lemma TailMember(q: seq<Tid>, t: Tid)
    requires q != []
    ensures t in q[1..] ==> t in q
  {
  }

  lemma AppendCount(q: seq<Tid>, x: Tid, t: Tid)
    ensures multiset(q + [x])[t] == multiset(q)[t] + if t == x then 1 else 0
  {
  }

  lemma PopCount(q: seq<Tid>, t: Tid)
    requires q != []
    ensures multiset(q)[t] == multiset(q[1..])[t] + if t == q[0] then 1 else 0
  {
    assert q == [q[0]] + q[1..];
  }

  /** A thread counted on no list is on none. */
  lemma Unlisted(s: Kernel, t: Tid)
    requires Inv(s) && !IsListed(s, t)
    ensures t !in s.ready && t !in Sleepers(s.queues)
  {
    assert Places(s, t) == 0;
    assert t in s.ready ==> t in multiset(s.ready);
  }

  lemma ForkStep(s: Kernel, t: Tid)
    requires Inv(s) && Enabled(s, Fork(t))
    ensures Inv(Next(s, Fork(t))) && AssertionsHold(s, Fork(t))
  {
    hide Sleepers;
    var s' := Next(s, Fork(t));
    Unlisted(s, t);
    forall u: Tid
      ensures Places(s', u) == if IsListed(s', u) then 1 else 0
    {
      assert Places(s, u) == if IsListed(s, u) then 1 else 0;
      AppendCount(s.ready, t, u);
    }
  }

  /** The front of the ready list is there once, and asleep nowhere. */
  lemma FrontOnce(s: Kernel)
    requires Inv(s) && s.ready != []
    ensures IsListed(s, s.ready[0]) && s.ready[0] !in s.ready[1..] && s.ready[0] !in Sleepers(s.queues)
  {
    var next, rest := s.ready[0], s.ready[1..];
    assert next in multiset(s.ready) && (next in rest ==> next in multiset(rest));
    PopCount(s.ready, next);
    assert Places(s, next) == if IsListed(s, next) then 1 else 0;
  }

  lemma YieldPlace(s: Kernel, u: Tid)
    requires Inv(s) && Enabled(s, Yield) && s.ready != [] && s.ready[0] < |s.status|
    requires IsListed(s, s.ready[0])
    ensures Places(Next(s, Yield), u) == if IsListed(Next(s, Yield), u) then 1 else 0
  {
    hide Sleepers, StatusOk;
    assert Places(s, u) == if IsListed(s, u) then 1 else 0;
    PopCount(s.ready, u);
    AppendCount(s.ready[1..], s.current, u);
  }

  lemma YieldPlaces(s: Kernel)
    requires Inv(s) && Enabled(s, Yield) && s.ready != []
    ensures PlacesOk(Next(s, Yield))
  {
    FrontOnce(s);
    hide Sleepers, StatusOk, Places, Inv, Next;
    forall u: Tid
      ensures Places(Next(s, Yield), u) == if IsListed(Next(s, Yield), u) then 1 else 0
    {
      YieldPlace(s, u);
    }
  }

  lemma YieldStep(s: Kernel)
    requires Inv(s) && Enabled(s, Yield)
    ensures Inv(Next(s, Yield)) && AssertionsHold(s, Yield)
  {
    Unlisted(s, s.current);
    if s.ready != [] {
      YieldPlaces(s);
      FrontOnce(s);
      assert s.ready[0] in s.ready;
      hide Sleepers, PlacesOk;
      var s' := Next(s, Yield);
      forall u: Tid | u in s'.ready
        ensures u < |s'.status| && s'.status[u].Ready?
      {
        TailMember(s.ready, u);
        assert u == s.current || u in s.ready[1..];
      }
    }
  }

  lemma SleepOnStep(s: Kernel, q: nat)
    requires Inv(s) && Enabled(s, SleepOn(q))
    ensures Inv(Next(s, SleepOn(q))) && AssertionsHold(s, SleepOn(q))
  {
    var s' := Next(s, SleepOn(q));
    Unlisted(s, s.current);
    if s.current in s.queues[q] {
      SleepersMember(s.queues, q, s.current);
    }
    hide Sleepers;
    forall u: Tid
      ensures Sleepers(s'.queues)[u] == Sleepers(s.queues)[u] + if u == s.current then 1 else 0
    {
      SleepersUpdate(s.queues, q, s.queues[q] + [s.current], u);
      AppendCount(s.queues[q], s.current, u);
    }
    forall u: Tid
      ensures Places(s', u) == if IsListed(s', u) then 1 else 0
    {
      assert Places(s, u) == if IsListed(s, u) then 1 else 0;
    }
  }

  /** Taking the front off a semaphore's queue. */
  lemma WakeCount(queues: seq<seq<Tid>>, q: nat, u: Tid)
    requires q < |queues| && queues[q] != []
    ensures Sleepers(queues[q := queues[q][1..]])[u] + (if u == queues[q][0] then 1 else 0) == Sleepers(queues)[u]
  {
    SleepersUpdate(queues, q, queues[q][1..], u);
    PopCount(queues[q], u);
  }

  /** Waking moves the front of the queue to the ready list and nothing else. */
  lemma WakeMoves(s: Kernel, q: nat, u: Tid)
    requires Enabled(s, Wake(q)) && s.queues[q] != []
    ensures Places(Next(s, Wake(q)), u) == Places(s, u)
    ensures u in Sleepers(Next(s, Wake(q)).queues) ==> u in Sleepers(s.queues)
    ensures Sleepers(s.queues)[u] == 1 && u == s.queues[q][0] ==> u !in Sleepers(Next(s, Wake(q)).queues)
  {
    WakeCount(s.queues, q, u);
    AppendCount(s.ready, s.queues[q][0], u);
  }

  lemma WakePlaces(s: Kernel, q: nat)
    requires Inv(s) && Enabled(s, Wake(q)) && s.queues[q] != []
    ensures PlacesOk(Next(s, Wake(q)))
  {
    var w := s.queues[q][0];
    SleepersMember(s.queues, q, w);
    WokenOnce(s, w);
    hide Sleepers, Places, StatusOk;
    var s' := Next(s, Wake(q));
    forall u: Tid
      ensures Places(s', u) == if IsListed(s', u) then 1 else 0
    {
      assert Places(s, u) == if IsListed(s, u) then 1 else 0;
      WakeMoves(s, q, u);
    }
  }

  lemma WakeStatus(s: Kernel, q: nat)
    requires Inv(s) && Enabled(s, Wake(q)) && s.queues[q] != []
    ensures StatusOk(Next(s, Wake(q))) && s.queues[q][0] !in s.ready
  {
    var w := s.queues[q][0];
    SleepersMember(s.queues, q, w);
    WokenOnce(s, w);
    hide Sleepers, Places, PlacesOk;
    var s' := Next(s, Wake(q));
    forall u: Tid | u in Sleepers(s'.queues)
      ensures u in Sleepers(s.queues) && u != w
    {
      WakeMoves(s, q, u);
    }
  }

  lemma WakeStep(s: Kernel, q: nat)
    requires Inv(s) && Enabled(s, Wake(q))
    ensures Inv(Next(s, Wake(q))) && AssertionsHold(s, Wake(q))
  {
    hide PlacesOk, StatusOk, Sleepers;
    if s.queues[q] != [] {
      WakePlaces(s, q);
      WakeStatus(s, q);
      var w := s.queues[q][0];
      assert IsListed(s, w) by {
        SleepersMember(s.queues, q, w);
        WokenOnce(s, w);
      }
    }
  }

  /** A sleeper is asleep once, and not ready. */
  lemma WokenOnce(s: Kernel, w: Tid)
    requires Inv(s) && w in Sleepers(s.queues)
    ensures IsListed(s, w) && Sleepers(s.queues)[w] == 1 && w !in s.ready
  {
    assert Places(s, w) == if IsListed(s, w) then 1 else 0;
    assert w in s.ready ==> w in multiset(s.ready);
  }

  lemma DispatchStep(s: Kernel)
    requires Inv(s) && Enabled(s, Dispatch)
    ensures Inv(Next(s, Dispatch)) && AssertionsHold(s, Dispatch)
  {
    var s' := Next(s, Dispatch);
    FrontOnce(s);
    forall u: Tid
      ensures Places(s', u) == if IsListed(s', u) then 1 else 0
    {
      assert Places(s, u) == if IsListed(s, u) then 1 else 0;
      PopCount(s.ready, u);
    }
    forall u: Tid | u in s'.ready
      ensures u < |s'.status| && s'.status[u].Ready?
    {
      TailMember(s.ready, u);
    }
  }

  lemma NextKeepsInv(s: Kernel, a: Action)
    requires Inv(s) && Enabled(s, a)
    ensures Inv(Next(s, a)) && AssertionsHold(s, a)
  {
    match a
    case Fork(t) => ForkStep(s, t);
    case Yield => YieldStep(s);
    case SleepOn(q) => SleepOnStep(s, q);
    case Finish =>
      forall u: Tid
        ensures Places(Next(s, Finish), u) == Places(s, u) && IsListed(Next(s, Finish), u) == IsListed(s, u)
      {
      }
    case Wake(q) => WakeStep(s, q);
    case Dispatch => DispatchStep(s);
    case Reap =>
      forall u: Tid
        ensures Places(Next(s, Reap), u) == Places(s, u) && IsListed(Next(s, Reap), u) == IsListed(s, u)
      {
      }
  }

  // ---------- Over all runs ----------

  ghost predicate Initial(s: Kernel) {
    && s.mode.InThread? && s.ready == [] && s.toBeDestroyed == None && s.destroyed == {}
    && (forall q :: 0 <= q < |s.queues| ==> s.queues[q] == [])
    && s.current < |s.status| && s.status[s.current].Running?
    && forall t :: 0 <= t < |s.status| && t != s.current ==> s.status[t].JustCreated?
  }

  ghost predicate IsRun(ss: seq<Kernel>, acts: seq<Action>) {
    && |ss| == |acts| + 1
    && forall i :: 0 <= i < |acts| ==> Enabled(ss[i], acts[i]) && ss[i + 1] == Next(ss[i], acts[i])
  }

  lemma {:induction false} NoSleepers(queues: seq<seq<Tid>>)
    requires forall q :: 0 <= q < |queues| ==> queues[q] == []
    ensures Sleepers(queues) == multiset{}
  {
    if queues != [] {
      NoSleepers(queues[..|queues| - 1]);
    }
  }

  /** In every reachable state each thread is in exactly one place, no assertion fails, and a finished
      thread is waiting to be destroyed only until the next thread is past its switch point. */
  lemma {:induction false} SchedulerSafe(ss: seq<Kernel>, acts: seq<Action>, k: nat)
    requires IsRun(ss, acts) && Initial(ss[0]) && k < |ss|
    ensures Inv(ss[k])
    ensures k < |acts| ==> AssertionsHold(ss[k], acts[k])
    ensures !ss[k].mode.Switched? ==> ss[k].toBeDestroyed == None
  {
    hide Next, Enabled;
    if k == 0 {
      NoSleepers(ss[0].queues);
    } else {
      SchedulerSafe(ss, acts, k - 1);
      NextKeepsInv(ss[k - 1], acts[k - 1]);
    }
    if k < |acts| {
      NextKeepsInv(ss[k], acts[k]);
    }
  }

  /** The kernel can always go on, unless the CPU looks for a thread and none is ready. */
  lemma AlwaysAStep(s: Kernel)
    requires Inv(s) && !(s.mode.Sleeping? && s.ready == [])
    ensures exists a :: Enabled(s, a) && (a.Yield? || a.Dispatch? || a.Reap?)
    ensures s.mode.InThread? ==> Enabled(s, Yield) && Enabled(s, Finish)
    ensures s.mode.InThread? ==> forall q: nat :: q < |s.queues| ==> Enabled(s, SleepOn(q)) && Enabled(s, Wake(q))
    ensures s.mode.InThread? ==> forall t: Tid :: t < |s.status| && s.status[t].JustCreated? ==> Enabled(s, Fork(t))
  {
    var a := if s.mode.InThread? then Yield else if s.mode.Switched? then Reap else Dispatch;
    if s.mode.Sleeping? {
      assert s.ready[0] in s.ready;
    }
    assert Enabled(s, a);
    forall q: nat | q < |s.queues| && s.queues[q] != []
      ensures s.queues[q][0] < |s.status|
    {
      SleepersMember(s.queues, q, s.queues[q][0]);
    }
  }

  lemma DestroyedGrows(s: Kernel, a: Action)
    requires Enabled(s, a)
    ensures s.destroyed <= Next(s, a).destroyed
  {
  }

  /** A thread is destroyed at most once, and never runs or waits again. */
  lemma {:induction false} DestroyedForGood(ss: seq<Kernel>, acts: seq<Action>, i: nat, k: nat, t: Tid)
    requires IsRun(ss, acts) && Initial(ss[0]) && i <= k < |ss|
    requires t in ss[i].destroyed
    ensures t in ss[k].destroyed && t != ss[k].current && Places(ss[k], t) == 0 && ss[k].toBeDestroyed != Some(t)
  {
    hide Next, Enabled, Inv, Places, Initial;
    SchedulerSafe(ss, acts, k);
    if i < k {
      DestroyedForGood(ss, acts, i, k - 1, t);
      DestroyedGrows(ss[k - 1], acts[k - 1]);
    }
    NowhereElse(ss[k], t);
  }

  lemma NowhereElse(s: Kernel, t: Tid)
    requires Inv(s) && t in s.destroyed
    ensures t != s.current && Places(s, t) == 0 && s.toBeDestroyed != Some(t)
  {
    hide Places, StatusOk;
    assert !IsListed(s, t);
  }

  /** Whether an action takes a thread off the ready list. */
  predicate Dequeues(s: Kernel, a: Action) {
    s.ready != [] && (a.Yield? || a.Dispatch?)
  }

  function CountDequeues(ss: seq<Kernel>, acts: seq<Action>): nat
    requires |ss| >= |acts|
  {
    if acts == [] then 0
    else CountDequeues(ss[..|ss| - 1], acts[..|acts| - 1])
         + if Dequeues(ss[|acts| - 1], acts[|acts| - 1]) then 1 else 0
  }

  lemma FifoStep(s: Kernel, a: Action, k: nat)
    requires Inv(s) && Enabled(s, a) && k < |s.ready|
    ensures Dequeues(s, a) && k == 0 ==> Next(s, a).current == s.ready[0]
    ensures Dequeues(s, a) && k > 0 ==> k - 1 < |Next(s, a).ready| && Next(s, a).ready[k - 1] == s.ready[k]
    ensures !Dequeues(s, a) ==> k < |Next(s, a).ready| && Next(s, a).ready[k] == s.ready[k]
  {
    assert s.ready[0] in s.ready;
  }

  /** First come, first served: the thread at position `k` of the ready list is dispatched by the
      (k+1)-th dequeue, and until then each dequeue brings it one place forward. */
  lemma {:induction false} DispatchOrder(ss: seq<Kernel>, acts: seq<Action>, k: nat)
    requires IsRun(ss, acts) && Inv(ss[0]) && k < |ss[0].ready|
    requires CountDequeues(ss[..|acts|], acts) <= k
    ensures var d, s := CountDequeues(ss[..|acts|], acts), ss[|acts|];
            Inv(s) && k - d < |s.ready| && s.ready[k - d] == ss[0].ready[k]
    ensures var d, s := CountDequeues(ss[..|acts|], acts), ss[|acts|];
            d == k ==> forall a :: Enabled(s, a) && Dequeues(s, a) ==> Next(s, a).current == ss[0].ready[k]
  {
    hide Next, Enabled, Inv;
    var n := |acts|;
    if n > 0 {
      var acts', ss' := acts[..n - 1], ss[..n];
      assert ss[..n][..n - 1] == ss'[..n - 1] && ss[..n][n - 1] == ss[n - 1];
      DispatchOrder(ss', acts', k);
      var d' := CountDequeues(ss'[..n - 1], acts');
      FifoStep(ss[n - 1], acts[n - 1], k - d');
      NextKeepsInv(ss[n - 1], acts[n - 1]);
    }
    var d, s := CountDequeues(ss[..n], acts), ss[n];
    if d == k {
      forall a | Enabled(s, a) && Dequeues(s, a)
        ensures Next(s, a).current == ss[0].ready[k]
      {
        FifoStep(s, a, 0);
      }
    }
  }

  function CountWakes(acts: seq<Action>, q: nat): nat {
    if acts == [] then 0 else CountWakes(acts[..|acts| - 1], q) + (if acts[|acts| - 1] == Wake(q) then 1 else 0)
  }

  /** A wake-up takes the front of its queue; nothing else moves a sleeper. */
  lemma SleepersStep(s: Kernel, a: Action, q: nat, k: nat)
    requires Enabled(s, a) && q < |s.queues| && k < |s.queues[q]|
    ensures var s' := Next(s, a);
            && |s'.queues| == |s.queues|
            && (a != Wake(q) ==> k < |s'.queues[q]| && s'.queues[q][k] == s.queues[q][k])
            && (a == Wake(q) && k > 0 ==> k - 1 < |s'.queues[q]| && s'.queues[q][k - 1] == s.queues[q][k])
            && (a == Wake(q) && k == 0 ==> s'.ready == s.ready + [s.queues[q][0]])
  {
  }

  /** The thread at position `k` of a semaphore's queue is put on the ready list, behind all others there,
      by the (k+1)-th wake-up of that semaphore. */
  lemma {:induction false} WakeOrder(ss: seq<Kernel>, acts: seq<Action>, q: nat, k: nat)
    requires IsRun(ss, acts) && q < |ss[0].queues| && k < |ss[0].queues[q]| && CountWakes(acts, q) <= k
    ensures var w, s := CountWakes(acts, q), ss[|acts|];
            |s.queues| == |ss[0].queues| && k - w < |s.queues[q]| && s.queues[q][k - w] == ss[0].queues[q][k]
    ensures var s := ss[|acts|];
            CountWakes(acts, q) == k && Enabled(s, Wake(q)) ==> Next(s, Wake(q)).ready == s.ready + [ss[0].queues[q][k]]
  {
    hide Next, Enabled;
    var n := |acts|;
    if n > 0 {
      var acts', ss' := acts[..n - 1], ss[..n];
      WakeOrder(ss', acts', q, k);
      SleepersStep(ss[n - 1], acts[n - 1], q, k - CountWakes(acts', q));
    }
    if CountWakes(acts, q) == k && Enabled(ss[n], Wake(q)) {
      SleepersStep(ss[n], Wake(q), q, 0);
    }
  }

  /** A thread that goes to sleep on a semaphore does so behind everybody who sleeps there already. */
  lemma SleepsLast(s: Kernel, q: nat)
    requires Enabled(s, SleepOn(q))
    ensures Next(s, SleepOn(q)).queues[q] == s.queues[q] + [s.current]
  {
  }

  // ---------- The scheduler object ----------

  /** The scheduler and the threads that it moves about. What runs after SWITCH, in the context
      of the next thread, is the separate call of `CheckToBeDestroyed`. */
  class Scheduler {
    var readyList: seq<Tid>
    var toBeDestroyed: Option<Tid>
    var currentThread: Tid
    var mode: Mode
    var status: seq<Status>
    var queues: seq<seq<Tid>>
    ghost var destroyed: set<Tid>

    ghost function View(): Kernel
      reads this
    {
      Kernel(currentThread, mode, readyList, status, queues, toBeDestroyed, destroyed)
    }

    constructor (threads: nat, semaphores: nat)
      requires threads > 0
      ensures Initial(View()) && Inv(View()) && |status| == threads && |queues| == semaphores
    {
      readyList, toBeDestroyed, currentThread, mode := [], None, 0, InThread;
      status := [Running] + seq(threads - 1, _ => JustCreated);
      queues := seq(semaphores, _ => []);
      destroyed := {};
      new;
      NoSleepers(queues);
    }

    method ReadyToRun(thread: Tid)
      requires thread < |status| && thread !in readyList
      modifies `status, `readyList
      ensures View() == MadeReady(old(View()), thread)
    {
      status := status[thread := Ready];
      readyList := readyList + [thread];
    }

    method FindNextToRun() returns (next: Option<Tid>)
      modifies `readyList
      ensures old(readyList) == [] ==> next == None && readyList == []
      ensures old(readyList) != [] ==> next == Some(old(readyList)[0]) && readyList == old(readyList)[1..]
    {
      if readyList == [] {
        return None;
      }
      next := Some(readyList[0]);
      readyList := readyList[1..];
    }

    method Run(nextThread: Tid, finishing: bool)
      requires nextThread < |status| && (finishing ==> toBeDestroyed == None)
      modifies this
      ensures View() == SwitchedTo(old(View()), nextThread, finishing)
    {
      if finishing {
        toBeDestroyed := Some(currentThread);
      }
      currentThread := nextThread;
      status := status[nextThread := Running];
      mode := Switched;
    }

    /** After a switch: destroys exactly the thread that has finished, if there is one. It is not
        the one now running, and no list holds it. */
    method CheckToBeDestroyed()
      requires Inv(View()) && mode == Switched
      modifies this
      ensures Inv(View()) && old(Enabled(View(), Reap)) && View() == Next(old(View()), Reap)
      ensures destroyed == old(destroyed) + (if old(toBeDestroyed).Some? then {old(toBeDestroyed).value} else {})
      ensures toBeDestroyed == None && currentThread !in destroyed && status[currentThread].Running?
      ensures forall t :: t in destroyed ==> Places(View(), t) == 0
    {
      hide Inv;
      ghost var s := View();
      ReapEnabled(s);
      NextKeepsInv(s, Reap);
      NowhereListed(Next(s, Reap));
      if toBeDestroyed.Some? {
        destroyed := destroyed + {toBeDestroyed.value};
        toBeDestroyed := None;
      }
      mode := InThread;
      assert View() == Next(s, Reap);
    }

    method Fork(t: Tid)
      requires Inv(View()) && Enabled(View(), Action.Fork(t))
      modifies this
      ensures Inv(View()) && View() == Next(old(View()), Action.Fork(t))
      ensures readyList == old(readyList) + [t] && status[t].Ready? && currentThread == old(currentThread)
    {
      NextKeepsInv(View(), Action.Fork(t));
      hide Inv;
      ReadyToRun(t);
    }

    method Yield()
      requires Inv(View()) && Enabled(View(), Action.Yield)
      modifies this
      ensures Inv(View()) && View() == Next(old(View()), Action.Yield)
      ensures old(readyList) == [] ==> View() == old(View())
      ensures old(readyList) != [] ==>
                && currentThread == old(readyList)[0] && readyList == old(readyList)[1..] + [old(currentThread)]
                && status[currentThread].Running? && mode == Switched && toBeDestroyed == old(toBeDestroyed)
    {
      NextKeepsInv(View(), Action.Yield);
      if readyList != [] {
        FrontExists(View());
      }
      hide Inv;
      var next := FindNextToRun();
      if next.Some? {
        NotInTail(old(readyList), currentThread);
        ReadyToRun(currentThread);
        Run(next.value, false);
      }
    }

    /** `Thread::Sleep` up to its idle loop. */
    method StartSleep(queue: Option<nat>)
      requires Inv(View()) && mode == InThread && (queue.Some? ==> queue.value < |queues|)
      modifies this
      ensures Inv(View())
      ensures View() == Next(old(View()), if queue.Some? then SleepOn(queue.value) else Action.Finish)
      ensures queue.Some? ==> queues == old(queues)[queue.value := old(queues)[queue.value] + [currentThread]]
      ensures queue.None? ==> queues == old(queues)
      ensures mode == Sleeping(queue.None?) && status[currentThread].Blocked?
      ensures currentThread == old(currentThread) && readyList == old(readyList)
    {
      NextKeepsInv(View(), if queue.Some? then SleepOn(queue.value) else Action.Finish);
      hide Inv;
      if queue.Some? {
        queues := queues[queue.value := queues[queue.value] + [currentThread]];
      }
      status := status[currentThread := Blocked];
      mode := Sleeping(queue.None?);
    }

    /** The end of `Thread::Sleep`, once there is a thread to run. */
    method EndSleep()
      requires Inv(View()) && mode.Sleeping? && readyList != []
      modifies this
      ensures Inv(View()) && old(Enabled(View(), Action.Dispatch)) && View() == Next(old(View()), Action.Dispatch)
      ensures currentThread == old(readyList)[0] && readyList == old(readyList)[1..] && mode == Switched
      ensures status[currentThread].Running?
      ensures toBeDestroyed == if old(mode).finishing then Some(old(currentThread)) else old(toBeDestroyed)
    {
      FrontExists(View());
      NextKeepsInv(View(), Action.Dispatch);
      hide Inv;
      var finishing := mode.finishing;
      var next := FindNextToRun();
      Run(next.value, finishing);
    }

    /** `Semaphore::V`, for the queue of a semaphore. */
    method Wake(queue: nat)
      requires Inv(View()) && Enabled(View(), Action.Wake(queue))
      modifies this
      ensures Inv(View()) && View() == Next(old(View()), Action.Wake(queue))
      ensures old(queues)[queue] == [] ==> View() == old(View())
      ensures old(queues)[queue] != [] ==>
                && queues == old(queues)[queue := old(queues)[queue][1..]]
                && readyList == old(readyList) + [old(queues)[queue][0]] && status[old(queues)[queue][0]].Ready?
    {
      NextKeepsInv(View(), Action.Wake(queue));
      hide Inv;
      if queues[queue] != [] {
        var thread := queues[queue][0];
        queues := queues[queue := queues[queue][1..]];
        ReadyToRun(thread);
      }
    }
  }

  lemma ReapEnabled(s: Kernel)
    requires Inv(s) && s.mode.Switched?
    ensures Enabled(s, Reap)
    ensures Next(s, Reap).current !in Next(s, Reap).destroyed && s.status[s.current].Running?
  {
  }

  lemma NowhereListed(s: Kernel)
    requires Inv(s)
    ensures forall t :: t in s.destroyed ==> Places(s, t) == 0
  {
    forall t | t in s.destroyed
      ensures Places(s, t) == 0
    {
      assert !IsListed(s, t);
    }
  }

  lemma FrontExists(s: Kernel)
    requires Inv(s) && s.ready != []
    ensures s.ready[0] < |s.status| && (!s.mode.Sleeping? ==> s.current !in s.ready)
  {
    assert s.ready[0] in s.ready;
    if !s.mode.Sleeping? {
      Unlisted(s, s.current);
    }
  }

  lemma NotInTail(q: seq<Tid>, t: Tid)
    requires q != [] && t !in q
    ensures t !in q[1..]
  {
  }
}
