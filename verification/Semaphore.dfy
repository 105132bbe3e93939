/** Semaphores (threads/synch.cc), as data and as a system of threads.

    A context switch happens only where interrupts are re-enabled or a thread goes to sleep,
    so the atomic segments of `P` are its tests of the value: the first one, and one more each
    time the sleeping thread has been woken. `V` is one segment. */
module Semaphores {
  import opened Common

  type Tid = nat

  /** The fields of a semaphore. */
  datatype SemData = SemData(value: int, queue: seq<Tid>)

  /** One test of `while (value == 0)`: either the thread queues up to sleep, or it takes a unit and leaves. */
  function Test(d: SemData, t: Tid): SemData {
    if d.value == 0 then SemData(0, d.queue + [t]) else d.(value := d.value - 1)
  }

  predicate Blocks(d: SemData) { d.value == 0 }

  function V(d: SemData): SemData {
    SemData(d.value + 1, if d.queue == [] then [] else d.queue[1..])
  }

  /** The thread that `V` makes ready, if any. */
  function Wakes(d: SemData): Option<Tid> {
    if d.queue == [] then None else Some(d.queue[0])
  }

  class Semaphore {
    var value: int
    var queue: seq<Tid>

    ghost function Data(): SemData
      reads this
    {
      SemData(value, queue)
    }

    constructor (initialValue: int)
      ensures Data() == SemData(initialValue, [])
    {
      value, queue := initialValue, [];
    }

    /** One pass through the loop of `P` by thread `t`; the list of sleepers must not already hold `t`. */
    method PTest(t: Tid) returns (sleeps: bool)
      requires t !in queue
      modifies this
      ensures sleeps == Blocks(old(Data())) && Data() == Test(old(Data()), t)
      ensures sleeps <==> old(value) == 0
      ensures sleeps ==> value == 0 && queue == old(queue) + [t]
      ensures !sleeps ==> value == old(value) - 1 && queue == old(queue)
    {
      if value == 0 {
        queue := queue + [t];
        return true;
      }
      value := value - 1;
      return false;
    }

    method Vee() returns (ready: Option<Tid>)
      modifies this
      ensures ready == Wakes(old(Data())) && Data() == V(old(Data()))
      ensures value == old(value) + 1
      ensures old(queue) == [] ==> ready == None && queue == []
      ensures old(queue) != [] ==> ready == Some(old(queue)[0]) && queue == old(queue)[1..]
    {
      ready := None;
      if queue != [] {
        ready := Some(queue[0]);
        queue := queue[1..];
      }
      value := value + 1;
    }
  }

  // ---------- Counting threads by what they are doing ----------

  function Count<P>(pcs: seq<P>, f: P -> bool): nat {
    if pcs == [] then 0
    else Count(pcs[..|pcs| - 1], f) + (if f(pcs[|pcs| - 1]) then 1 else 0)
  }

  lemma {:induction false} CountUpdate<P>(pcs: seq<P>, f: P -> bool, t: nat, p: P)
    requires t < |pcs|
    ensures Count(pcs[t := p], f) == Count(pcs, f) - (if f(pcs[t]) then 1 else 0) + (if f(p) then 1 else 0)
  {
    var n := |pcs| - 1;
    if t == n {
      assert pcs[t := p][..n] == pcs[..n];
    } else {
      assert pcs[t := p][..n] == pcs[..n][t := p];
      CountUpdate(pcs[..n], f, t, p);
    }
  }

  lemma {:induction false} CountMember<P>(pcs: seq<P>, f: P -> bool, t: nat)
    requires t < |pcs| && f(pcs[t])
    ensures Count(pcs, f) >= 1
  {
    var n := |pcs| - 1;
    if t < n {
      CountMember(pcs[..n], f, t);
    }
  }

  lemma {:induction false} CountFinds<P>(pcs: seq<P>, f: P -> bool) returns (t: nat)
    requires Count(pcs, f) > 0
    ensures t < |pcs| && f(pcs[t])
  {
    t := |pcs| - 1;
    if !f(pcs[t]) {
      t := CountFinds(pcs[..t], f);
    }
  }

  lemma {:induction false} CountTwo<P>(pcs: seq<P>, f: P -> bool, t: nat, u: nat)
    requires t < u < |pcs| && f(pcs[t]) && f(pcs[u])
    ensures Count(pcs, f) >= 2
  {
    var n := |pcs| - 1;
    if u < n {
      CountTwo(pcs[..n], f, t, u);
    } else {
      CountMember(pcs[..n], f, t);
    }
  }

  lemma {:induction false} CountNone<P>(pcs: seq<P>, f: P -> bool)
    requires forall t :: 0 <= t < |pcs| ==> !f(pcs[t])
    ensures Count(pcs, f) == 0
  {
    if pcs != [] {
      CountNone(pcs[..|pcs| - 1], f);
    }
  }

  lemma {:induction false} CountMonotone<P>(pcs: seq<P>, f: P -> bool, g: P -> bool)
    requires forall t :: 0 <= t < |pcs| && f(pcs[t]) ==> g(pcs[t])
    ensures Count(pcs, f) <= Count(pcs, g)
  {
    if pcs != [] {
      CountMonotone(pcs[..|pcs| - 1], f, g);
    }
  }

  // ---------- What every semaphore keeps, whatever program uses it ----------

  /** The queue holds exactly the sleeping threads, each once; and while threads sleep, the value
      is covered by threads that have been woken and have yet to test again. */
  ghost predicate SemInv<P(!new)>(d: SemData, pcs: seq<P>, asleep: P -> bool, woken: P -> bool) {
    && d.value >= 0
    && Distinct(d.queue)
    && (forall t: Tid :: t in d.queue <==> t < |pcs| && asleep(pcs[t]))
    && (d.queue != [] ==> d.value <= Count(pcs, woken))
    && (forall p :: !(asleep(p) && woken(p)))
  }

  /** A test by a thread that is not asleep. */
  lemma TestKeepsInv<P(!new)>(d: SemData, pcs: seq<P>, asleep: P -> bool, woken: P -> bool, t: Tid, p: P)
    requires SemInv(d, pcs, asleep, woken) && t < |pcs| && !asleep(pcs[t])
    requires asleep(p) == Blocks(d) && !woken(p)
    ensures t !in d.queue
    ensures SemInv(Test(d, t), pcs[t := p], asleep, woken)
  {
    CountUpdate(pcs, woken, t, p);
    var d' := Test(d, t);
    forall u: Tid
      ensures u in d'.queue <==> u < |pcs| && asleep(pcs[t := p][u])
    {
      assert u in d.queue <==> u < |pcs| && asleep(pcs[u]);
    }
  }

  /** `V` wakes the thread at the front of the queue, if there is one. */
  lemma VKeepsInv<P(!new)>(d: SemData, pcs: seq<P>, asleep: P -> bool, woken: P -> bool, p: P)
    requires SemInv(d, pcs, asleep, woken)
    requires d.queue != [] ==> woken(p)
    ensures d.queue == [] ==> SemInv(V(d), pcs, asleep, woken)
    ensures d.queue != [] ==> d.queue[0] < |pcs| && asleep(pcs[d.queue[0]])
    ensures d.queue != [] ==> SemInv(V(d), pcs[d.queue[0] := p], asleep, woken)
  {
    if d.queue != [] {
      var w := d.queue[0];
      assert w in d.queue;
      CountUpdate(pcs, woken, w, p);
      var d' := V(d);
      forall u: Tid
        ensures u in d'.queue <==> u < |pcs| && asleep(pcs[w := p][u])
      {
        assert u in d.queue <==> u in d'.queue || u == w;
        assert u in d'.queue ==> u != w;
      }
    }
  }

  /** A step of a thread that neither falls asleep on this semaphore nor was woken on it. */
  lemma OtherKeepsInv<P(!new)>(d: SemData, pcs: seq<P>, asleep: P -> bool, woken: P -> bool, t: Tid, p: P)
    requires SemInv(d, pcs, asleep, woken) && t < |pcs|
    requires asleep(p) == asleep(pcs[t]) && woken(p) == woken(pcs[t])
    ensures SemInv(d, pcs[t := p], asleep, woken)
  {
    CountUpdate(pcs, woken, t, p);
    forall u: Tid
      ensures u in d.queue <==> u < |pcs| && asleep(pcs[t := p][u])
    {
      assert u in d.queue <==> u < |pcs| && asleep(pcs[u]);
    }
  }

  /** Nobody is stranded: once every woken thread has tested again, sleepers imply a value of 0. */
  lemma NoneStranded<P(!new)>(d: SemData, pcs: seq<P>, asleep: P -> bool, woken: P -> bool)
    requires SemInv(d, pcs, asleep, woken)
    requires forall t :: 0 <= t < |pcs| ==> !woken(pcs[t])
    ensures d.value > 0 ==> d.queue == [] && forall t :: 0 <= t < |pcs| ==> !asleep(pcs[t])
  {
    CountNone(pcs, woken);
    if d.value > 0 {
      assert d.queue == [];
    }
  }

}

/** A semaphore on its own, under any interleaving of any number of threads. */
module SemaphoreRuns {
  import opened Common
  import opened Semaphores

  datatype Pc = Away | Asleep | Woken

  predicate IsAsleep(p: Pc) { p.Asleep? }

  predicate IsWoken(p: Pc) { p.Woken? }

  /** `ps` and `vs` count the completed operations. */
  datatype System = System(d: SemData, pcs: seq<Pc>, initial: int, ps: nat, vs: nat)

  datatype Action =
    | CallP(t: Tid)
    | Retest(t: Tid)
    | CallV            // by any thread, or by an interrupt handler

  predicate Enabled(s: System, a: Action) {
    match a
    case CallP(t) => t < |s.pcs| && s.pcs[t].Away?
    case Retest(t) => t < |s.pcs| && s.pcs[t].Woken?
    case CallV => true
  }

  ghost function Next(s: System, a: Action): System
    requires Enabled(s, a)
  {
    match a
    case CallV =>
      s.(d := V(s.d), vs := s.vs + 1,
         pcs := match Wakes(s.d)
                case None => s.pcs
                case Some(w) => if w < |s.pcs| then s.pcs[w := Woken] else s.pcs)
    case _ =>
      s.(d := Test(s.d, a.t), ps := if Blocks(s.d) then s.ps else s.ps + 1,
         pcs := s.pcs[a.t := if Blocks(s.d) then Asleep else Away])
  }

  ghost predicate Inv(s: System) {
    && SemInv(s.d, s.pcs, IsAsleep, IsWoken)
    && s.d.value == s.initial + s.vs - s.ps
  }

  lemma NextKeepsInv(s: System, a: Action)
    requires Inv(s) && Enabled(s, a)
    ensures Inv(Next(s, a))
    ensures !a.CallV? ==> a.t !in s.d.queue
  {
    match a
    case CallV =>
      VKeepsInv(s.d, s.pcs, IsAsleep, IsWoken, Woken);
    case _ =>
      TestKeepsInv(s.d, s.pcs, IsAsleep, IsWoken, a.t, if Blocks(s.d) then Asleep else Away);
  }

  ghost predicate IsRun(ss: seq<System>, acts: seq<Action>) {
    && |ss| == |acts| + 1
    && forall i :: 0 <= i < |acts| ==> Enabled(ss[i], acts[i]) && ss[i + 1] == Next(ss[i], acts[i])
  }

  ghost predicate Initial(s: System) {
    && s.initial >= 0 && s.d == SemData(s.initial, []) && s.ps == s.vs == 0
    && forall t :: 0 <= t < |s.pcs| ==> s.pcs[t].Away?
  }

  /** Over all runs, with any number of threads: the value counts the operations, it is never negative,
      and no sleeper is left behind with a unit that nobody has been woken for. */
  lemma {:induction false} SemaphoreSafe(ss: seq<System>, acts: seq<Action>, k: nat)
    requires IsRun(ss, acts) && Initial(ss[0]) && k < |ss|
    ensures Inv(ss[k])
    ensures ss[k].d.value == ss[0].initial + ss[k].vs - ss[k].ps >= 0
    ensures (forall t :: 0 <= t < |ss[k].pcs| ==> !ss[k].pcs[t].Woken?) && ss[k].d.value > 0 ==>
              forall t :: 0 <= t < |ss[k].pcs| ==> !ss[k].pcs[t].Asleep?
  {
    if k > 0 {
      SemaphoreSafe(ss, acts, k - 1);
      NextKeepsInv(ss[k - 1], acts[k - 1]);
    }
    if forall t :: 0 <= t < |ss[k].pcs| ==> !ss[k].pcs[t].Woken? {
      NoneStranded(ss[k].d, ss[k].pcs, IsAsleep, IsWoken);
    }
  }

  // ---------- First come, first served ----------

  function CountVs(acts: seq<Action>): nat {
    if acts == [] then 0 else CountVs(acts[..|acts| - 1]) + (if acts[|acts| - 1].CallV? then 1 else 0)
  }

  /** A `V` makes the thread at the front ready and moves the others forward; a test moves nobody. */
  lemma QueueStep(s: System, a: Action, k: nat)
    requires Enabled(s, a) && k < |s.d.queue|
    ensures a.CallV? && k == 0 ==> Wakes(s.d) == Some(s.d.queue[0])
    ensures a.CallV? && k > 0 ==> k - 1 < |Next(s, a).d.queue| && Next(s, a).d.queue[k - 1] == s.d.queue[k]
    ensures !a.CallV? ==> k < |Next(s, a).d.queue| && Next(s, a).d.queue[k] == s.d.queue[k]
  {
  }

  /** The thread at position `k` of the queue is the one that the (k+1)-th `V` from here on makes ready. */
  lemma {:induction false} WakeOrder(ss: seq<System>, acts: seq<Action>, k: nat)
    requires IsRun(ss, acts) && Inv(ss[0]) && k < |ss[0].d.queue| && CountVs(acts) <= k
    ensures var v, s := CountVs(acts), ss[|acts|];
            Inv(s) && k - v < |s.d.queue| && s.d.queue[k - v] == ss[0].d.queue[k]
    ensures CountVs(acts) == k ==>
              var t, s := ss[0].d.queue[k], ss[|acts|];
              t < |s.pcs| && s.pcs[t].Asleep? && Wakes(s.d) == Some(t) && Next(s, CallV).pcs == s.pcs[t := Woken]
  {
    hide Next, Enabled, Inv;
    var n := |acts|;
    if n > 0 {
      var acts', ss' := acts[..n - 1], ss[..n];
      WakeOrder(ss', acts', k);
      QueueStep(ss[n - 1], acts[n - 1], k - CountVs(acts'));
      NextKeepsInv(ss[n - 1], acts[n - 1]);
    }
    if CountVs(acts) == k {
      FrontSleeps(ss[n]);
    }
  }

  lemma FrontSleeps(s: System)
    requires Inv(s) && s.d.queue != []
    ensures var t := s.d.queue[0];
            t < |s.pcs| && s.pcs[t].Asleep? && Wakes(s.d) == Some(t) && Next(s, CallV).pcs == s.pcs[t := Woken]
  {
    assert s.d.queue[0] in s.d.queue;
  }

  /** A thread that finds the value 0 goes to sleep behind everybody who sleeps already. */
  lemma SleepsLast(s: System, a: Action)
    requires Inv(s) && Enabled(s, a) && !a.CallV? && Blocks(s.d)
    ensures var q := Next(s, a).d.queue;
            |q| == |s.d.queue| + 1 && q[|s.d.queue|] == a.t && Next(s, a).pcs[a.t].Asleep?
  {
  }

  /** So it is made ready by the `V` that comes after one for each of them, and by no other. */
  lemma SleeperTurn(ss: seq<System>, acts: seq<Action>)
    requires IsRun(ss, acts) && Inv(ss[0]) && |acts| > 0
    requires !acts[0].CallV? && Blocks(ss[0].d) && CountVs(acts[1..]) == |ss[0].d.queue|
    ensures var t, s := acts[0].t, ss[|acts|];
            t < |s.pcs| && s.pcs[t].Asleep? && Wakes(s.d) == Some(t) && Next(s, CallV).pcs == s.pcs[t := Woken]
  {
    hide Next, Enabled, Inv, Blocks;
    SleepsLast(ss[0], acts[0]);
    NextKeepsInv(ss[0], acts[0]);
    WakeOrder(ss[1..], acts[1..], |ss[0].d.queue|);
  }
}
