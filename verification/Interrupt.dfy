/** The simulated interrupt hardware (machine/interrupt.cc): a clock with three accounts, a list of
    pending events sorted by due time, and handlers that schedule further events. */
module Interrupts {
  import opened Common
  import opened Lists

  datatype IntStatus = IntOff | IntOn
  datatype MachineStatus = IdleMode | SystemMode | UserMode
  datatype IntType = TimerInt | DiskInt | ConsoleWriteInt | ConsoleReadInt | NetworkSendInt | NetworkRecvInt

  const USER_TICK := 1
  const SYSTEM_TICK := 10

  /** A pending interrupt; `id` tells apart the objects allocated by `Schedule`. */
  datatype Event = Event(id: nat, toCall: int, when: int, kind: IntType)

  /** What a handler does that matters here: it schedules events and may ask for a context switch. */
  datatype Request = Request(toCall: int, fromNow: int, kind: IntType)
  datatype Response = Response(requests: seq<Request>, switches: bool)

  function PendingCompare(x: Event, y: Event): int {
    if x.when < y.when then -1 else if x.when > y.when then 1 else 0
  }

  /** Due earlier, or at the same time and scheduled earlier. */
  predicate Before(x: Event, y: Event) {
    x.when < y.when || (x.when == y.when && x.id < y.id)
  }

  ghost predicate Ordered(q: seq<Event>) {
    forall i, j :: 0 <= i < j < |q| ==> Before(q[i], q[j])
  }

  /** A new event keeps the order of past and pending events. */
  lemma InsertedOrdered(past: seq<Event>, q: seq<Event>, e: Event)
    requires Ordered(past + q)
    requires forall x :: x in past ==> x.when < e.when
    requires forall x :: x in q ==> x.id < e.id
    ensures Ordered(past + Inserted(q, e, PendingCompare))
  {
    var k := Slot(q, e, PendingCompare);
    var all, r := past + q, past + Inserted(q, e, PendingCompare);
    var m := |past| + k;
    assert forall i :: 0 <= i < m ==> r[i] == all[i];
    assert forall i :: m < i < |r| ==> r[i] == all[i - 1];
    assert r[m] == e;
    forall i, j | 0 <= i < j < |r|
      ensures Before(r[i], r[j])
    {
      if j == m {
        InsertedAfter(past, q, e, i);
      } else if i == m {
        assert Before(e, q[k]);
        assert j - 1 > m ==> Before(all[m], all[j - 1]);
      }
    }
  }

  lemma InsertedAfter(past: seq<Event>, q: seq<Event>, e: Event, i: nat)
    requires forall x :: x in past ==> x.when < e.when
    requires forall x :: x in q ==> x.id < e.id
    requires i < |past| + Slot(q, e, PendingCompare)
    ensures Before((past + q)[i], e)
  {
    if i < |past| {
      assert past[i] in past;
    } else {
      assert q[i - |past|] in q && PendingCompare(e, q[i - |past|]) >= 0;
    }
  }

  /** How many of a sorted list of events are due at time `t`. */
  function DueCount(q: seq<Event>, t: int): (k: nat)
    ensures k <= |q|
    ensures forall i :: 0 <= i < k ==> q[i].when <= t
    ensures k < |q| ==> q[k].when > t
  {
    Slot(q, Event(0, 0, t, TimerInt), PendingCompare)
  }

  /** Events later than `t` do not disturb the due ones in front. */
  lemma InsertedBehindDue(q: seq<Event>, e: Event, k: nat, t: int)
    requires k <= |q| && e.when > t
    requires forall i :: 0 <= i < k ==> q[i].when <= t
    requires forall i :: k <= i < |q| ==> q[i].when > t
    ensures var r := Inserted(q, e, PendingCompare);
            r[..k] == q[..k] && forall i :: k <= i < |r| ==> r[i].when > t
  {
    var s := Slot(q, e, PendingCompare);
    assert s >= k by {
      assert s < k ==> PendingCompare(e, q[s]) < 0;
    }
  }

  lemma InsertedFrom(q: seq<Event>, e: Event, i: nat)
    requires i <= |q|
    ensures Inserted(q, e, PendingCompare)[i] == e || Inserted(q, e, PendingCompare)[i] in q
  {
  }

  /** Past and pending events are in the order of their times, and of their scheduling where times
      are equal; together they are what was scheduled, each event once. */
  ghost predicate InOrder(fired: seq<Event>, pending: seq<Event>, scheduled: seq<Event>) {
    && Ordered(fired + pending)
    && multiset(fired + pending) == multiset(scheduled)
    && (forall i :: 0 <= i < |scheduled| ==> scheduled[i].id == i)
  }

  /** No handler was called early, or more than SYSTEM_TICK - 1 late; no event is further behind than that. */
  ghost predicate Timely(fired: seq<Event>, firedAt: seq<int>, pending: seq<Event>, now: int) {
    && |firedAt| == |fired|
    && (forall i :: 0 <= i < |fired| ==> 0 <= firedAt[i] - fired[i].when <= SYSTEM_TICK - 1 && firedAt[i] <= now)
    && (forall i :: 0 <= i < |pending| ==> pending[i].when > now - SYSTEM_TICK)
  }

  lemma OlderEvents(fired: seq<Event>, pending: seq<Event>, scheduled: seq<Event>, x: Event)
    requires InOrder(fired, pending, scheduled) && (x in fired || x in pending)
    ensures x.id < |scheduled|
  {
    assert x in fired + pending;
    assert x in multiset(fired + pending);
    assert x in scheduled;
  }

  lemma ScheduleInOrder(fired: seq<Event>, pending: seq<Event>, scheduled: seq<Event>, e: Event)
    requires InOrder(fired, pending, scheduled) && e.id == |scheduled|
    requires forall x :: x in fired ==> x.when < e.when
    ensures InOrder(fired, Inserted(pending, e, PendingCompare), scheduled + [e])
  {
    hide Ordered, Inserted;
    forall x | x in pending
      ensures x.id < e.id
    {
      OlderEvents(fired, pending, scheduled, x);
    }
    InsertedOrdered(fired, pending, e);
    InsertedItems(pending, e, PendingCompare);
    assert multiset(fired + Inserted(pending, e, PendingCompare)) == multiset(fired + pending) + multiset{e};
  }

  lemma ScheduleTimely(fired: seq<Event>, firedAt: seq<int>, pending: seq<Event>, now: int, e: Event)
    requires Timely(fired, firedAt, pending, now) && e.when > now
    ensures Timely(fired, firedAt, Inserted(pending, e, PendingCompare), now)
    ensures forall x :: x in fired ==> x.when < e.when
  {
    hide Inserted;
    var r := Inserted(pending, e, PendingCompare);
    forall i | 0 <= i < |r|
      ensures r[i].when > now - SYSTEM_TICK
    {
      InsertedFrom(pending, e, i);
    }
  }

  lemma FireInOrder(fired: seq<Event>, pending: seq<Event>, scheduled: seq<Event>)
    requires InOrder(fired, pending, scheduled) && pending != []
    ensures InOrder(fired + [pending[0]], pending[1..], scheduled)
  {
    assert fired + [pending[0]] + pending[1..] == fired + pending;
  }

  lemma FireTimely(fired: seq<Event>, firedAt: seq<int>, pending: seq<Event>, now: int)
    requires Timely(fired, firedAt, pending, now) && pending != [] && pending[0].when <= now
    ensures Timely(fired + [pending[0]], firedAt + [now], pending[1..], now)
  {
  }

  lemma PendingSorted(fired: seq<Event>, pending: seq<Event>, scheduled: seq<Event>, now: int)
    requires InOrder(fired, pending, scheduled)
    ensures forall i :: DueCount(pending, now) <= i < |pending| ==> pending[i].when > now
  {
    var k := DueCount(pending, now);
    forall i | k < i < |pending|
      ensures pending[i].when > now
    {
      assert (fired + pending)[|fired| + k] == pending[k] && (fired + pending)[|fired| + i] == pending[i];
      assert Before(pending[k], pending[i]);
    }
  }

  /** The clock may move on to the time of the first event. */
  lemma Advance(fired: seq<Event>, firedAt: seq<int>, pending: seq<Event>, scheduled: seq<Event>, now: int, t: int)
    requires InOrder(fired, pending, scheduled) && Timely(fired, firedAt, pending, now) && pending != []
    requires now <= t <= pending[0].when
    ensures Timely(fired, firedAt, pending, t)
  {
    forall i | 0 <= i < |pending|
      ensures pending[i].when >= pending[0].when
    {
      assert (fired + pending)[|fired|] == pending[0] && (fired + pending)[|fired| + i] == pending[i];
    }
  }

  /** The events that a handler called at time `now` makes, the first with id `n`. */
  function Made(rs: seq<Request>, n: nat, now: int): seq<Event> {
    seq(|rs|, i requires 0 <= i < |rs| => Event(n + i, rs[i].toCall, now + rs[i].fromNow, rs[i].kind))
  }

  /** What the handlers called after the first `from` asked for, in order. */
  ghost function Requests(callBack: seq<Event> -> Response, fired: seq<Event>, from: nat): seq<Request> {
    if |fired| <= from then []
    else Requests(callBack, fired[..|fired| - 1], from) + callBack(fired).requests
  }

  /** Exactly one event has been scheduled per request, in order and due from `now`, and no other. */
  ghost predicate Answered(rs: seq<Request>, before: seq<Event>, after: seq<Event>, now: int) {
    && |after| == |before| + |rs| && after[..|before|] == before
    && forall i :: 0 <= i < |rs| ==>
         var e := after[|before| + i];
         e.toCall == rs[i].toCall && e.kind == rs[i].kind && e.when == now + rs[i].fromNow
  }

  lemma AnsweredNone(before: seq<Event>, now: int)
    ensures Answered([], before, before, now)
  {
  }

  /** The next handler's requests. */
  lemma AnsweredNext(callBack: seq<Event> -> Response, fired: seq<Event>, from: nat, e: Event,
                     before: seq<Event>, mid: seq<Event>, n: nat, now: int)
    requires from <= |fired| && Answered(Requests(callBack, fired, from), before, mid, now)
    ensures Answered(Requests(callBack, fired + [e], from), before,
                     mid + Made(callBack(fired + [e]).requests, n, now), now)
  {
    var more := fired + [e];
    assert more[..|more| - 1] == fired;
  }

  lemma NoRequests(callBack: seq<Event> -> Response, fired: seq<Event>)
    ensures Requests(callBack, fired, |fired|) == []
  {
  }

  /** Whether one of the handlers called after the first `from` asked for a context switch. */
  ghost predicate Asks(callBack: seq<Event> -> Response, fired: seq<Event>, from: nat) {
    exists i :: from < i <= |fired| && callBack(fired[..i]).switches
  }

  lemma AsksNext(callBack: seq<Event> -> Response, fired: seq<Event>, from: nat, e: Event)
    requires from <= |fired|
    ensures Asks(callBack, fired + [e], from) == (Asks(callBack, fired, from) || callBack(fired + [e]).switches)
  {
    var more := fired + [e];
    assert more[..|more|] == more;
    assert forall i :: from < i <= |fired| ==> more[..i] == fired[..i];
    if Asks(callBack, fired, from) {
      var i :| from < i <= |fired| && callBack(fired[..i]).switches;
      assert callBack(more[..i]).switches;
    }
  }

  /** No event is lost or delivered twice: each is pending or was fired, once. */
  lemma EachEventOnce(fired: seq<Event>, pending: seq<Event>, scheduled: seq<Event>, n: nat)
    requires InOrder(fired, pending, scheduled) && n < |scheduled|
    ensures multiset(fired)[scheduled[n]] + multiset(pending)[scheduled[n]] == 1
  {
    hide Ordered;
    IdOnce(scheduled, n);
    assert multiset(fired + pending)[scheduled[n]] == multiset(fired)[scheduled[n]] + multiset(pending)[scheduled[n]];
  }

  lemma {:induction false} IdOnce(scheduled: seq<Event>, n: nat)
    requires n < |scheduled| && forall i :: 0 <= i < |scheduled| ==> scheduled[i].id == i
    ensures multiset(scheduled)[scheduled[n]] == 1
  {
    var m := |scheduled| - 1;
    assert scheduled == scheduled[..m] + [scheduled[m]];
    if n < m {
      IdOnce(scheduled[..m], n);
      assert scheduled[m] != scheduled[n];
    } else {
      assert scheduled[n] !in scheduled[..m];
    }
  }

  class Interrupt {
    var level: IntStatus
    var pending: seq<Event>
    var inHandler: bool
    var yieldOnReturn: bool
    var status: MachineStatus
    var totalTicks: int
    var idleTicks: int
    var systemTicks: int
    var userTicks: int
    const callBack: seq<Event> -> Response   // what the last of the handlers called so far does

    var numScheduled: nat
    var fired: seq<Event>             // the events whose handlers were called, in that order
    ghost var firedAt: seq<int>       // and when
    ghost var scheduled: seq<Event>   // all events ever scheduled, in that order

    ghost predicate Consistent()
      reads this
    {
      && InOrder(fired, pending, scheduled) && |scheduled| == numScheduled
      && Timely(fired, firedAt, pending, totalTicks)
      && totalTicks == idleTicks + systemTicks + userTicks
      && idleTicks >= 0 && systemTicks >= 0 && userTicks >= 0
      && forall h :: forall i :: 0 <= i < |callBack(h).requests| ==> callBack(h).requests[i].fromNow > 0
    }

    /** Nothing is due until the clock moves on. */
    ghost predicate Quiet()
      reads this
    {
      forall i :: 0 <= i < |pending| ==> pending[i].when > totalTicks
    }

    ghost predicate Valid()
      reads this
    {
      Consistent() && Quiet() && !inHandler
    }

    /** Handlers may do anything, but `Schedule` asserts that they schedule into the future. */
    constructor (handlers: seq<Event> -> Response)
      requires forall h :: forall i :: 0 <= i < |handlers(h).requests| ==> handlers(h).requests[i].fromNow > 0
      ensures Valid() && level == IntOff && status == SystemMode && !yieldOnReturn && pending == [] && fired == []
    {
      level, pending, inHandler, yieldOnReturn, status := IntOff, [], false, false, SystemMode;
      totalTicks, idleTicks, systemTicks, userTicks := 0, 0, 0, 0;
      callBack := handlers;
      fired, firedAt, scheduled, numScheduled := [], [], [], 0;
    }

    method Schedule(toCall: int, fromNow: int, kind: IntType)
      requires Consistent() && fromNow > 0
      modifies `pending, `scheduled, `numScheduled
      ensures Consistent()
      ensures scheduled == old(scheduled) + [Event(old(numScheduled), toCall, totalTicks + fromNow, kind)]
      ensures pending == Inserted(old(pending), Event(old(numScheduled), toCall, totalTicks + fromNow, kind),
                                  PendingCompare)
    {
      hide InOrder, Timely, Inserted;
      var e := Event(numScheduled, toCall, totalTicks + fromNow, kind);
      ScheduleTimely(fired, firedAt, pending, totalTicks, e);
      ScheduleInOrder(fired, pending, scheduled, e);
      numScheduled := numScheduled + 1;
      pending := Inserted(pending, e, PendingCompare);
      scheduled := scheduled + [e];
    }

    /** The handler of the event fired last: it leaves the events that are due alone. */
    method Handle(ghost due: nat)
      requires Consistent() && inHandler && due <= |pending|
      requires forall j :: due <= j < |pending| ==> pending[j].when > totalTicks
      requires forall j :: 0 <= j < due ==> pending[j].when <= totalTicks
      modifies `pending, `yieldOnReturn, `scheduled, `numScheduled
      ensures Consistent() && due <= |pending| && pending[..due] == old(pending[..due])
      ensures forall j :: due <= j < |pending| ==> pending[j].when > totalTicks
      ensures yieldOnReturn == (old(yieldOnReturn) || callBack(fired).switches)
      ensures scheduled == old(scheduled) + Made(callBack(fired).requests, old(numScheduled), totalTicks)
    {
      hide InOrder, Timely, Inserted;
      var r := callBack(fired);
      var i := 0;
      while i < |r.requests|
        invariant 0 <= i <= |r.requests|
        invariant Consistent() && due <= |pending| && pending[..due] == old(pending[..due])
        invariant forall j :: due <= j < |pending| ==> pending[j].when > totalTicks
        invariant scheduled == old(scheduled) + Made(r.requests, old(numScheduled), totalTicks)[..i]
        invariant yieldOnReturn == old(yieldOnReturn)
      {
        ghost var e := Event(numScheduled, r.requests[i].toCall, totalTicks + r.requests[i].fromNow, r.requests[i].kind);
        assert e == Made(r.requests, old(numScheduled), totalTicks)[i];
        InsertedBehindDue(pending, e, due, totalTicks);
        Schedule(r.requests[i].toCall, r.requests[i].fromNow, r.requests[i].kind);
        i := i + 1;
      }
      if r.switches {
        yieldOnReturn := true;
      }
    }

    lemma DueComeFirst()
      requires Consistent()
      ensures forall i :: DueCount(pending, totalTicks) <= i < |pending| ==> pending[i].when > totalTicks
    {
      hide DueCount, InOrder;
      PendingSorted(fired, pending, scheduled, totalTicks);
    }

    lemma NoneAsked()
      ensures !Asks(callBack, fired, |fired|)
    {
    }

    /** One round of the loop of `CheckIfDue`: the first of the `due` events that are due. */
    method FireFirst(ghost due: nat)
      requires Consistent() && inHandler && 0 < due <= |pending|
      requires forall j :: due <= j < |pending| ==> pending[j].when > totalTicks
      requires forall j :: 0 <= j < due ==> pending[j].when <= totalTicks
      modifies `pending, `yieldOnReturn, `fired, `firedAt, `scheduled, `numScheduled
      ensures Consistent() && due - 1 <= |pending| && pending[..due - 1] == old(pending[1..due])
      ensures forall j :: due - 1 <= j < |pending| ==> pending[j].when > totalTicks
      ensures fired == old(fired) + [old(pending)[0]] && firedAt == old(firedAt) + [totalTicks]
      ensures yieldOnReturn == (old(yieldOnReturn) || callBack(fired).switches)
      ensures scheduled == old(scheduled) + Made(callBack(fired).requests, old(numScheduled), totalTicks)
    {
      hide InOrder, Timely;
      FireInOrder(fired, pending, scheduled);
      FireTimely(fired, firedAt, pending, totalTicks);
      var next := pending[0];
      pending := pending[1..];
      fired, firedAt := fired + [next], firedAt + [totalTicks];
      assert pending[..due - 1] == old(pending[1..due]);
      Handle(due - 1);
    }

    /** The loop of `CheckIfDue`. It ends although handlers schedule new events, because those are not due. */
    method Fire()
      requires Consistent() && inHandler && pending != [] && pending[0].when <= totalTicks
      modifies `pending, `yieldOnReturn, `fired, `firedAt, `scheduled, `numScheduled
      ensures Consistent() && Quiet()
      ensures fired == old(fired + pending[..DueCount(pending, totalTicks)])
      ensures yieldOnReturn == (old(yieldOnReturn) || Asks(callBack, fired, |old(fired)|))
      ensures Answered(Requests(callBack, fired, |old(fired)|), old(scheduled), scheduled, totalTicks)
    {
      hide InOrder, Timely, DueCount, Asks, Consistent, Answered, Requests, Made;
      NoneAsked();
      NoRequests(callBack, fired);
      AnsweredNone(scheduled, totalTicks);
      ghost var due := pending[..DueCount(pending, totalTicks)];    // those still to be fired
      DueComeFirst();
      var more := true;
      while more
        invariant Consistent() && due <= pending && more == (due != [])
        invariant fired + due == old(fired + pending[..DueCount(pending, totalTicks)]) && |fired| >= |old(fired)|
        invariant forall j :: 0 <= j < |due| ==> pending[j].when <= totalTicks
        invariant forall j :: |due| <= j < |pending| ==> pending[j].when > totalTicks
        invariant yieldOnReturn == (old(yieldOnReturn) || Asks(callBack, fired, |old(fired)|))
        invariant Answered(Requests(callBack, fired, |old(fired)|), old(scheduled), scheduled, totalTicks)
        decreases |due|
      {
        assert due[0] == pending[0] && pending[1..|due|] == due[1..];
        AsksNext(callBack, fired, |old(fired)|, pending[0]);
        AnsweredNext(callBack, fired, |old(fired)|, pending[0], old(scheduled), scheduled, numScheduled, totalTicks);
        FireFirst(|due|);
        due := due[1..];
        assert fired + due == old(fired + pending[..DueCount(pending, totalTicks)]);
        assert forall j :: 0 <= j < |due| ==> pending[j] == due[j];
        more := pending != [] && pending[0].when <= totalTicks;
      }
    }

    /** With `advanceClock`, the clock jumps to the first event if that is still to come. */
    method CheckIfDue(advanceClock: bool) returns (any: bool)
      requires Consistent() && level == IntOff && !inHandler && (advanceClock ==> Quiet())
      modifies this
      ensures Valid() && level == IntOff && status == old(status)
      ensures Answered(Requests(callBack, fired, |old(fired)|), old(scheduled), scheduled, totalTicks)
      ensures any == old(pending != [] && (advanceClock || pending[0].when <= totalTicks))
      ensures totalTicks == if any && advanceClock then old(pending)[0].when else old(totalTicks)
      ensures systemTicks == old(systemTicks) && userTicks == old(userTicks)
      ensures fired == old(fired) + old(pending)[..DueCount(old(pending), totalTicks)]
      ensures !any ==> pending == old(pending) && scheduled == old(scheduled)
      ensures yieldOnReturn == (old(yieldOnReturn) || Asks(callBack, fired, |old(fired)|))
    {
      hide InOrder, Timely, DueCount, Asks, Answered, Requests;
      NoneAsked();
      NoRequests(callBack, fired);
      AnsweredNone(scheduled, totalTicks);
      if pending == [] {
        return false;
      }
      var next := pending[0];
      if next.when > totalTicks {
        if !advanceClock {
          PendingSorted(fired, pending, scheduled, totalTicks);
          return false;
        }
        Advance(fired, firedAt, pending, scheduled, totalTicks, next.when);
        PendingSorted(fired, pending, scheduled, next.when);
        idleTicks := idleTicks + (next.when - totalTicks);
        totalTicks := next.when;
      }
      inHandler := true;
      Fire();
      inHandler := false;
      return true;
    }

    /** One tick of the clock. When a handler has asked for it the current thread then yields,
        in system mode: that is left to the caller. */
    method OneTick() returns (switches: bool)
      requires Valid()
      modifies this
      ensures Valid() && level == IntOn && status == old(status) && !yieldOnReturn
      ensures old(status) == SystemMode ==> totalTicks == old(totalTicks) + 10 && systemTicks == old(systemTicks) + 10
      ensures old(status) != SystemMode ==> totalTicks == old(totalTicks) + 1 && userTicks == old(userTicks) + 1
      ensures idleTicks == old(idleTicks)
      ensures Answered(Requests(callBack, fired, |old(fired)|), old(scheduled), scheduled, totalTicks)
      ensures fired == old(fired) + old(pending)[..DueCount(old(pending), totalTicks)]
      ensures switches == (old(yieldOnReturn) || Asks(callBack, fired, |old(fired)|))
    {
      hide InOrder, DueCount, Asks, Answered, Requests;
      if status == SystemMode {
        totalTicks := totalTicks + SYSTEM_TICK;
        systemTicks := systemTicks + SYSTEM_TICK;
      } else {
        totalTicks := totalTicks + USER_TICK;
        userTicks := userTicks + USER_TICK;
      }
      level := IntOff;
      var any := CheckIfDue(false);
      level := IntOn;
      switches := yieldOnReturn;
      yieldOnReturn := false;
    }

    /** Time only passes when interrupts go from off to on; handlers may not turn them on. */
    method SetLevel(now: IntStatus) returns (was: IntStatus, switches: bool)
      requires Consistent() && (inHandler || Valid()) && (now == IntOff || !inHandler)
      modifies this
      ensures Consistent() && inHandler == old(inHandler) && (!inHandler ==> Valid()) && level == now && was == old(level)
      ensures now == IntOn && was == IntOff ==>
                && totalTicks == old(totalTicks) + (if status == SystemMode then 10 else 1) && idleTicks == old(idleTicks)
                && systemTicks == old(systemTicks) + (if status == SystemMode then 10 else 0)
      ensures now == IntOn && was == IntOff ==>
                Answered(Requests(callBack, fired, |old(fired)|), old(scheduled), scheduled, totalTicks)
      ensures now == IntOn && was == IntOff ==> fired == old(fired) + old(pending)[..DueCount(old(pending), totalTicks)]
      ensures now == IntOn && was == IntOff ==> switches == (old(yieldOnReturn) || Asks(callBack, fired, |old(fired)|))
      ensures now == IntOn && was == IntOff ==> !yieldOnReturn && status == old(status)
      ensures now == IntOff || was == IntOn ==>
                && totalTicks == old(totalTicks) && fired == old(fired) && pending == old(pending) && !switches
                && yieldOnReturn == old(yieldOnReturn) && status == old(status) && scheduled == old(scheduled)
    {
      hide InOrder, Timely, DueCount, Asks, Answered, Requests;
      was := level;
      switches := false;
      level := now;
      if now == IntOn && was == IntOff {
        switches := OneTick();
      }
    }

    /** With no thread to run, the clock jumps to the next event; without one the machine halts. */
    method Idle() returns (halted: bool)
      requires Valid() && level == IntOff
      modifies this
      ensures Valid() && halted == (old(pending) == []) && status == if halted then IdleMode else SystemMode
      ensures systemTicks == old(systemTicks) && userTicks == old(userTicks)
      ensures totalTicks == if halted then old(totalTicks) else old(pending)[0].when
      ensures fired == old(fired) + old(pending)[..DueCount(old(pending), totalTicks)]
      ensures !halted ==> |fired| > |old(fired)|
      ensures yieldOnReturn == (old(yieldOnReturn) || Asks(callBack, fired, |old(fired)|))
      ensures Answered(Requests(callBack, fired, |old(fired)|), old(scheduled), scheduled, totalTicks)
    {
      hide InOrder, Timely, Answered, Requests, Asks, DueCount;
      status := IdleMode;
      var any := CheckIfDue(true);
      if any {
        status := SystemMode;
      }
      halted := !any;
    }
  }
}
