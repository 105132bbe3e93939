/** The pthread pipeline of NTHU-OS-Pthreads: a reader feeds producers, which feed a varying number of
    cancellable consumers, which feed a writer, through three bounded queues.

    A queue operation is atomic from the lock of its mutex to the unlock or the wait. `signal` wakes any
    one waiter, and a waiter may also wake up by itself; a woken thread tests its condition again. */
module Pipelines {
  import opened Common
  import opened Semaphores
  import opened Transformers

  datatype Phase = Trying | Waiting | Awake   // first try; in `cond_wait`; woken, about to test again

  /** An item under way, with the number of the input line that it comes from; no step looks at the number. */
  datatype Token = Token(line: nat, item: Item)

  datatype Pc =
    | ReaderTop
    | ReaderPut(token: Token, ph: Phase)
    | ReaderDone
    | ProducerGet(ph: Phase)
    | ProducerWork(token: Token)
    | ProducerPut(token: Token, ph: Phase)
    | ConsumerTop
    | ConsumerGet(ph: Phase)
    | ConsumerWork(token: Token)
    | ConsumerPut(token: Token, ph: Phase)
    | ConsumerDone
    | WriterTop
    | WriterGet(ph: Phase)
    | WriterWrite(token: Token)
    | WriterDone

  /** Thread 0 is the reader, 1 the writer, then come the producers, then the consumers ever created. */
  datatype State = State(
    producers: nat,          // how many producer threads
    input: seq<Item>,        // the lines of the input file
    n: nat,                  // how many of them to process
    read: nat,
    queues: seq<seq<Token>>, // input queue, worker queue, writer queue
    caps: seq<nat>,
    pcs: seq<Pc>,
    cancelled: set<Tid>,
    pool: seq<Tid>,          // ConsumerController::consumers
    written: seq<Token>)

  function Fetches(p: Pc): Option<(nat, Phase)> {
    match p
    case ProducerGet(ph) => Some((0, ph))
    case ConsumerGet(ph) => Some((1, ph))
    case WriterGet(ph) => Some((2, ph))
    case _ => None
  }

  function Stores(p: Pc): Option<(nat, Phase)> {
    match p
    case ReaderPut(_, ph) => Some((0, ph))
    case ProducerPut(_, ph) => Some((1, ph))
    case ConsumerPut(_, ph) => Some((2, ph))
    case _ => None
  }

  /** The waiting and the woken threads on either side of queue `i`. */
  function FetchWaits(i: nat): Pc -> bool { p => Fetches(p) == Some((i, Waiting)) }
  function FetchAwake(i: nat): Pc -> bool { p => Fetches(p) == Some((i, Awake)) }
  function StoreWaits(i: nat): Pc -> bool { p => Stores(p) == Some((i, Waiting)) }
  function StoreAwake(i: nat): Pc -> bool { p => Stores(p) == Some((i, Awake)) }

  predicate IsWaiting(p: Pc) {
    || (Fetches(p).Some? && Fetches(p).value.1.Waiting?)
    || (Stores(p).Some? && Stores(p).value.1.Waiting?)
  }

  function WithPhase(p: Pc, ph: Phase): Pc
    requires Fetches(p).Some? || Stores(p).Some?
  {
    match p
    case ReaderPut(x, _) => ReaderPut(x, ph)
    case ProducerGet(_) => ProducerGet(ph)
    case ProducerPut(x, _) => ProducerPut(x, ph)
    case ConsumerGet(_) => ConsumerGet(ph)
    case ConsumerPut(x, _) => ConsumerPut(x, ph)
    case WriterGet(_) => WriterGet(ph)
  }

  function AfterFetch(p: Pc, x: Token): Pc
    requires Fetches(p).Some?
  {
    match p
    case ProducerGet(_) => ProducerWork(x)
    case ConsumerGet(_) => ConsumerWork(x)
    case WriterGet(_) => WriterWrite(x)
  }

  function AfterStore(p: Pc): Pc
    requires Stores(p).Some?
  {
    match p
    case ReaderPut(_, _) => ReaderTop
    case ProducerPut(_, _) => ProducerGet(Trying)
    case ConsumerPut(_, _) => ConsumerTop
  }

  datatype Action =
    | Local(t: Tid)                        // everything between two queue operations
    | Exit(t: Tid)                         // a cancelled consumer leaves its loop
    | Store(t: Tid, wakes: Option<Tid>)    // one pass through `enqueue`, and the waiter it signals
    | Fetch(t: Tid, wakes: Option<Tid>)    // one pass through `dequeue`
    | Spurious(t: Tid)
    | ScaleUp(observed: int)               // the controller, with the size it saw
    | ScaleDown(observed: int)

  const LOW := 40      // 20 and 80 percent of the worker queue's 200 slots
  const HIGH := 160

  /** What `signal` may wake: some waiter if there is any. */
  ghost predicate SignalOk(pcs: seq<Pc>, waits: Pc -> bool, wakes: Option<Tid>) {
    match wakes
    case None => Count(pcs, waits) == 0
    case Some(u) => u < |pcs| && waits(pcs[u])
  }

  predicate IsLocal(p: Pc) {
    p.ReaderTop? || p.ProducerWork? || p.ConsumerTop? || p.ConsumerWork? || p.WriterTop? || p.WriterWrite?
  }

  predicate WellFormed(s: State) {
    |s.queues| == |s.caps| == 3 && s.read <= s.n <= |s.input|
  }

  ghost predicate Enabled(s: State, a: Action)
    requires WellFormed(s)
  {
    match a
    case Local(t) => t < |s.pcs| && IsLocal(s.pcs[t])
    case Exit(t) => t < |s.pcs| && s.pcs[t].ConsumerTop? && t in s.cancelled
    case Store(t, wakes) =>
      && t < |s.pcs| && Stores(s.pcs[t]).Some? && !IsWaiting(s.pcs[t])
      && SignalOk(s.pcs, FetchWaits(Stores(s.pcs[t]).value.0), wakes)
    case Fetch(t, wakes) =>
      && t < |s.pcs| && Fetches(s.pcs[t]).Some? && !IsWaiting(s.pcs[t])
      && SignalOk(s.pcs, StoreWaits(Fetches(s.pcs[t]).value.0), wakes)
    case Spurious(t) => t < |s.pcs| && IsWaiting(s.pcs[t])
    case ScaleUp(observed) => observed > HIGH
    case ScaleDown(observed) => observed < LOW && |s.pool| > 1
  }

  function Carries(p: Pc): Token
    requires Stores(p).Some?
  {
    p.token
  }

  function WakeUp(pcs: seq<Pc>, wakes: Option<Tid>): seq<Pc> {
    match wakes
    case None => pcs
    case Some(u) => if u < |pcs| && IsWaiting(pcs[u]) then pcs[u := WithPhase(pcs[u], Awake)] else pcs
  }

  function LocalStep(s: State, t: Tid): State
    requires WellFormed(s) && t < |s.pcs| && IsLocal(s.pcs[t])
  {
    match s.pcs[t]
    case ReaderTop =>
      if s.read < s.n then s.(read := s.read + 1, pcs := s.pcs[t := ReaderPut(Token(s.read, s.input[s.read]), Trying)])
      else s.(pcs := s.pcs[t := ReaderDone])
    case ProducerWork(x) => s.(pcs := s.pcs[t := ProducerPut(x.(item := Produce(x.item)), Trying)])
    case ConsumerTop => s.(pcs := s.pcs[t := ConsumerGet(Trying)])
    case ConsumerWork(x) => s.(pcs := s.pcs[t := ConsumerPut(x.(item := Consume(x.item)), Trying)])
    case WriterTop =>
      if |s.written| < s.n then s.(pcs := s.pcs[t := WriterGet(Trying)]) else s.(pcs := s.pcs[t := WriterDone])
    case WriterWrite(x) => s.(written := s.written + [x], pcs := s.pcs[t := WriterTop])
  }

  function StoreStep(s: State, t: Tid, wakes: Option<Tid>): State
    requires WellFormed(s) && t < |s.pcs| && Stores(s.pcs[t]).Some?
  {
    var i := Stores(s.pcs[t]).value.0;
    if |s.queues[i]| >= s.caps[i] then s.(pcs := s.pcs[t := WithPhase(s.pcs[t], Waiting)])
    else s.(queues := s.queues[i := s.queues[i] + [Carries(s.pcs[t])]],
            pcs := WakeUp(s.pcs[t := AfterStore(s.pcs[t])], wakes))
  }

  function FetchStep(s: State, t: Tid, wakes: Option<Tid>): State
    requires WellFormed(s) && t < |s.pcs| && Fetches(s.pcs[t]).Some?
  {
    var i := Fetches(s.pcs[t]).value.0;
    if s.queues[i] == [] then s.(pcs := s.pcs[t := WithPhase(s.pcs[t], Waiting)])
    else s.(queues := s.queues[i := s.queues[i][1..]],
            pcs := WakeUp(s.pcs[t := AfterFetch(s.pcs[t], s.queues[i][0])], wakes))
  }

  function Next(s: State, a: Action): State
    requires WellFormed(s)
    requires a.Local? ==> a.t < |s.pcs| && IsLocal(s.pcs[a.t])
    requires a.Exit? ==> a.t < |s.pcs|
    requires a.Store? ==> a.t < |s.pcs| && Stores(s.pcs[a.t]).Some?
    requires a.Fetch? ==> a.t < |s.pcs| && Fetches(s.pcs[a.t]).Some?
    requires a.Spurious? ==> a.t < |s.pcs| && IsWaiting(s.pcs[a.t])
    requires a.ScaleDown? ==> |s.pool| > 1
  {
    match a
    case Local(t) => LocalStep(s, t)
    case Exit(t) => s.(pcs := s.pcs[t := ConsumerDone])
    case Store(t, wakes) => StoreStep(s, t, wakes)
    case Fetch(t, wakes) => FetchStep(s, t, wakes)
    case Spurious(t) => s.(pcs := s.pcs[t := WithPhase(s.pcs[t], Awake)])
    case ScaleUp(_) => s.(pcs := s.pcs + [ConsumerTop], pool := s.pool + [|s.pcs|])
    case ScaleDown(_) =>
      var last := |s.pool| - 1;
      s.(cancelled := s.cancelled + {s.pool[last]}, pool := s.pool[..last])
  }

  // ---------- No item is lost, duplicated or changed otherwise than by its stages ----------

  /** The value of an input line that has passed this many stages. */
  function AtStage(stage: nat, x: Item): Item {
    if stage == 0 then x else if stage == 1 then Produce(x) else Consume(Produce(x))
  }

  /** The item that a thread carries, and the number of stages it has passed. */
  function Load(p: Pc): Option<(nat, Token)> {
    match p
    case ReaderPut(x, _) => Some((0, x))
    case ProducerWork(x) => Some((0, x))
    case ProducerPut(x, _) => Some((1, x))
    case ConsumerWork(x) => Some((1, x))
    case ConsumerPut(x, _) => Some((2, x))
    case WriterWrite(x) => Some((2, x))
    case _ => None
  }

  function Lines(q: seq<Token>): multiset<nat> {
    if q == [] then multiset{} else Lines(q[..|q| - 1]) + multiset{q[|q| - 1].line}
  }

  function Held(p: Pc): multiset<nat> {
    if Load(p).None? then multiset{} else multiset{Load(p).value.1.line}
  }

  function AllHeld(pcs: seq<Pc>): multiset<nat> {
    if pcs == [] then multiset{} else AllHeld(pcs[..|pcs| - 1]) + Held(pcs[|pcs| - 1])
  }

  /** The lines 0 to `n` - 1, once each. */
  function UpTo(n: nat): multiset<nat> {
    if n == 0 then multiset{} else UpTo(n - 1) + multiset{n - 1 as nat}
  }

  function InQueues(queues: seq<seq<Token>>): multiset<nat>
    requires |queues| == 3
  {
    Lines(queues[0]) + Lines(queues[1]) + Lines(queues[2])
  }

  /** Every line read is in exactly one place. */
  ghost predicate OnceEach(s: State)
    requires WellFormed(s)
  {
    InQueues(s.queues) + AllHeld(s.pcs) + Lines(s.written) == UpTo(s.read)
  }

  /** The item is its input line after exactly the stages it has passed. */
  predicate Right(input: seq<Item>, read: nat, stage: nat, x: Token)
    requires read <= |input|
  {
    x.line < read && x.item == AtStage(stage, input[x.line])
  }

  predicate CarriesRight(input: seq<Item>, read: nat, p: Pc)
    requires read <= |input|
  {
    Load(p).Some? ==> Right(input, read, Load(p).value.0, Load(p).value.1)
  }

  ghost predicate AllRight(input: seq<Item>, read: nat, stage: nat, q: seq<Token>)
    requires read <= |input|
  {
    forall k :: 0 <= k < |q| ==> Right(input, read, stage, q[k])
  }

  ghost predicate ThreadsRight(input: seq<Item>, read: nat, pcs: seq<Pc>)
    requires read <= |input|
  {
    forall t: Tid :: t < |pcs| ==> CarriesRight(input, read, pcs[t])
  }

  ghost predicate QueuesRight(input: seq<Item>, read: nat, queues: seq<seq<Token>>)
    requires read <= |input| && |queues| == 3
  {
    AllRight(input, read, 0, queues[0]) && AllRight(input, read, 1, queues[1]) && AllRight(input, read, 2, queues[2])
  }

  /** Whatever is queued, carried or written has the value that its line should have there. */
  ghost predicate ValuesOk(s: State)
    requires WellFormed(s)
  {
    && QueuesRight(s.input, s.read, s.queues)
    && ThreadsRight(s.input, s.read, s.pcs)
    && AllRight(s.input, s.read, 2, s.written)
  }

  ghost predicate Conserved(s: State)
    requires WellFormed(s)
  {
    OnceEach(s) && ValuesOk(s)
  }

  // Once each

  lemma {:induction false} HeldUpdate(pcs: seq<Pc>, t: nat, p: Pc, l: nat)
    requires t < |pcs|
    ensures AllHeld(pcs[t := p])[l] + Held(pcs[t])[l] == AllHeld(pcs)[l] + Held(p)[l]
  {
    hide Held;
    var n := |pcs| - 1;
    if t == n {
      assert pcs[t := p][..n] == pcs[..n];
    } else {
      assert pcs[t := p][..n] == pcs[..n][t := p] && pcs[t := p][n] == pcs[n];
      HeldUpdate(pcs[..n], t, p, l);
    }
  }

  function Once(x: Token, l: nat): nat { if x.line == l then 1 else 0 }

  lemma LinesAppend(q: seq<Token>, x: Token, l: nat)
    ensures Lines(q + [x])[l] == Lines(q)[l] + Once(x, l)
  {
    assert (q + [x])[..|q|] == q;
  }

  lemma {:induction false} LinesFront(q: seq<Token>, l: nat)
    requires q != []
    ensures Lines(q)[l] == Once(q[0], l) + Lines(q[1..])[l]
  {
    var n := |q| - 1;
    LinesAppend(q[..n], q[n], l);
    assert q[..n] + [q[n]] == q;
    if n > 0 {
      LinesFront(q[..n], l);
      LinesAppend(q[1..n], q[n], l);
      assert q[1..] == q[1..n] + [q[n]] && q[..n][1..] == q[1..n];
    }
  }

  lemma HeldCount(p: Pc, l: nat)
    ensures Held(p)[l] == if Load(p).Some? then Once(Load(p).value.1, l) else 0
  {
    hide Load;
  }

  lemma HeldByStorer(p: Pc)
    requires Stores(p).Some?
    ensures Load(p) == Some((Stores(p).value.0, Carries(p))) && Load(AfterStore(p)).None?
  {
  }

  lemma HeldByFetcher(p: Pc, x: Token)
    requires Fetches(p).Some?
    ensures Load(p).None? && Load(AfterFetch(p, x)) == Some((Fetches(p).value.0, x))
  {
  }

  lemma HeldWithPhase(p: Pc, ph: Phase)
    requires Fetches(p).Some? || Stores(p).Some?
    ensures Load(WithPhase(p, ph)) == Load(p)
  {
  }

  /** Waking a thread does not change what anybody carries. */
  lemma WakeUpKeepsLoads(pcs: seq<Pc>, wakes: Option<Tid>, u: Tid)
    requires u < |pcs|
    ensures |WakeUp(pcs, wakes)| == |pcs| && Load(WakeUp(pcs, wakes)[u]) == Load(pcs[u])
  {
    hide Load, WithPhase;
    match wakes
    case None =>
    case Some(v) =>
      if v < |pcs| && IsWaiting(pcs[v]) {
        HeldWithPhase(pcs[v], Awake);
      }
  }

  lemma WakeUpKeepsHeld(pcs: seq<Pc>, wakes: Option<Tid>, l: nat)
    ensures AllHeld(WakeUp(pcs, wakes))[l] == AllHeld(pcs)[l]
  {
    hide Load, AllHeld, WithPhase;
    match wakes
    case None =>
    case Some(u) =>
      if u < |pcs| && IsWaiting(pcs[u]) {
        HeldUpdate(pcs, u, WithPhase(pcs[u], Awake), l);
        HeldWithPhase(pcs[u], Awake);
      }
  }

  /** In how many places a line is, and in how many it should be. */
  function Out(s: State, l: nat): nat
    requires WellFormed(s)
  {
    InQueues(s.queues)[l] + AllHeld(s.pcs)[l] + Lines(s.written)[l]
  }

  lemma OnceEachByLine(s: State)
    requires WellFormed(s)
    ensures OnceEach(s) <==> forall l :: Out(s, l) == UpTo(s.read)[l]
  {
    hide Lines, AllHeld, UpTo, InQueues;
    var a, b := InQueues(s.queues) + AllHeld(s.pcs) + Lines(s.written), UpTo(s.read);
    assert forall l :: Out(s, l) == a[l];
    if forall l :: Out(s, l) == UpTo(s.read)[l] {
      assert forall l :: a[l] == b[l];
      assert a == b;
    }
  }

  /** What a thread carries before and after a local step. */
  lemma LocalLoad(s: State, t: Tid)
    requires WellFormed(s) && t < |s.pcs| && IsLocal(s.pcs[t])
    ensures var s' := LocalStep(s, t);
            && WellFormed(s') && s'.pcs == s.pcs[t := s'.pcs[t]] && s'.queues == s.queues
            && var (was, now) := (Load(s.pcs[t]), Load(s'.pcs[t]));
               match s.pcs[t]
               case ReaderTop =>
                 && was.None? && s'.written == s.written
                 && if s'.read == s.read then now.None?
                    else s'.read == s.read + 1 && now.Some? && now.value.1.line == s.read
               case WriterWrite(x) =>
                 was.Some? && was.value.1 == x && now.None? && s'.written == s.written + [x] && s'.read == s.read
               case _ =>
                 && s'.written == s.written && s'.read == s.read
                 && (was.None? <==> now.None?) && (was.Some? ==> now.value.1.line == was.value.1.line)
  {
    hide Produce, Consume;
  }

  lemma LocalLines(s: State, t: Tid, l: nat)
    requires WellFormed(s) && t < |s.pcs| && IsLocal(s.pcs[t])
    ensures var s' := LocalStep(s, t);
            && WellFormed(s') && s'.pcs == s.pcs[t := s'.pcs[t]] && s'.queues == s.queues
            && Held(s'.pcs[t])[l] + Lines(s'.written)[l] + UpTo(s.read)[l]
               == Held(s.pcs[t])[l] + Lines(s.written)[l] + UpTo(s'.read)[l]
  {
    hide LocalStep, Load, Held, Lines;
    LocalLoad(s, t);
    HeldCount(s.pcs[t], l);
    HeldCount(LocalStep(s, t).pcs[t], l);
    if s.pcs[t].WriterWrite? {
      LinesAppend(s.written, s.pcs[t].token, l);
    }
  }

  /** A local step moves no line; reading adds the next one. */
  lemma LocalKeepsFlow(s: State, t: Tid, l: nat)
    requires WellFormed(s) && t < |s.pcs| && IsLocal(s.pcs[t])
    ensures WellFormed(LocalStep(s, t))
    ensures Out(LocalStep(s, t), l) + UpTo(s.read)[l] == Out(s, l) + UpTo(LocalStep(s, t).read)[l]
  {
    hide AllHeld, InQueues, Held, LocalStep, IsLocal, Lines, UpTo;
    LocalLines(s, t, l);
    HeldUpdate(s.pcs, t, LocalStep(s, t).pcs[t], l);
  }

  lemma StoreKeepsFlow(s: State, t: Tid, wakes: Option<Tid>, l: nat)
    requires WellFormed(s) && t < |s.pcs| && Stores(s.pcs[t]).Some?
    ensures WellFormed(StoreStep(s, t, wakes))
    ensures Out(StoreStep(s, t, wakes), l) == Out(s, l) && StoreStep(s, t, wakes).read == s.read
  {
    hide AllHeld, Held, Lines, Load, WithPhase, AfterStore, WakeUp, Carries;
    var p := s.pcs[t];
    var i := Stores(p).value.0;
    HeldByStorer(p);
    HeldCount(p, l);
    HeldCount(WithPhase(p, Waiting), l);
    HeldCount(AfterStore(p), l);
    if |s.queues[i]| >= s.caps[i] {
      HeldUpdate(s.pcs, t, WithPhase(p, Waiting), l);
      HeldWithPhase(p, Waiting);
    } else {
      HeldUpdate(s.pcs, t, AfterStore(p), l);
      WakeUpKeepsHeld(s.pcs[t := AfterStore(p)], wakes, l);
      LinesAppend(s.queues[i], Carries(p), l);
    }
  }

  lemma FetchKeepsFlow(s: State, t: Tid, wakes: Option<Tid>, l: nat)
    requires WellFormed(s) && t < |s.pcs| && Fetches(s.pcs[t]).Some?
    ensures WellFormed(FetchStep(s, t, wakes))
    ensures Out(FetchStep(s, t, wakes), l) == Out(s, l) && FetchStep(s, t, wakes).read == s.read
  {
    hide AllHeld, Held, Lines, Load, WithPhase, AfterFetch, WakeUp;
    var p := s.pcs[t];
    var i := Fetches(p).value.0;
    HeldCount(p, l);
    HeldCount(WithPhase(p, Waiting), l);
    if s.queues[i] == [] {
      HeldUpdate(s.pcs, t, WithPhase(p, Waiting), l);
      HeldWithPhase(p, Waiting);
    } else {
      var y := s.queues[i][0];
      HeldByFetcher(p, y);
      HeldCount(AfterFetch(p, y), l);
      HeldUpdate(s.pcs, t, AfterFetch(p, y), l);
      WakeUpKeepsHeld(s.pcs[t := AfterFetch(p, y)], wakes, l);
      LinesFront(s.queues[i], l);
    }
  }

  lemma NextKeepsFlow(s: State, a: Action, l: nat)
    requires WellFormed(s) && Enabled(s, a)
    ensures WellFormed(Next(s, a))
    ensures Out(Next(s, a), l) + UpTo(s.read)[l] == Out(s, l) + UpTo(Next(s, a).read)[l]
  {
    hide Out, UpTo, LocalStep, StoreStep, FetchStep;
    match a
    case Local(t) => LocalKeepsFlow(s, t, l);
    case Store(t, wakes) => StoreKeepsFlow(s, t, wakes, l);
    case Fetch(t, wakes) => FetchKeepsFlow(s, t, wakes, l);
    case _ => RestKeepsFlow(s, a, l);
  }

  lemma RestKeepsFlow(s: State, a: Action, l: nat)
    requires WellFormed(s) && Enabled(s, a) && !a.Local? && !a.Store? && !a.Fetch?
    ensures WellFormed(Next(s, a))
    ensures Out(Next(s, a), l) == Out(s, l) && Next(s, a).input == s.input && Next(s, a).read == s.read
  {
    hide AllHeld, Held, WithPhase, InQueues, Lines, Load;
    match a
    case Exit(t) =>
      IdleHoldsNothing();
      HeldUpdate(s.pcs, t, ConsumerDone, l);
    case Spurious(t) =>
      HeldWithPhase(s.pcs[t], Awake);
      HeldCount(s.pcs[t], l);
      HeldCount(WithPhase(s.pcs[t], Awake), l);
      HeldUpdate(s.pcs, t, WithPhase(s.pcs[t], Awake), l);
    case ScaleUp(_) => NewcomerHoldsNothing(s.pcs);
    case _ =>
  }

  lemma IdleHoldsNothing()
    ensures Held(ConsumerTop) == Held(ConsumerDone) == multiset{}
  {
  }

  lemma NewcomerHoldsNothing(pcs: seq<Pc>)
    ensures AllHeld(pcs + [ConsumerTop]) == AllHeld(pcs)
  {
    assert (pcs + [ConsumerTop])[..|pcs|] == pcs;
  }

  lemma NextKeepsOnceEach(s: State, a: Action)
    requires WellFormed(s) && Enabled(s, a) && OnceEach(s)
    ensures WellFormed(Next(s, a)) && OnceEach(Next(s, a))
  {
    hide OnceEach, Out, UpTo, Next;
    OnceEachByLine(s);
    forall l
      ensures WellFormed(Next(s, a)) && Out(Next(s, a), l) == UpTo(Next(s, a).read)[l]
    {
      NextKeepsFlow(s, a, l);
      assert Out(s, l) == UpTo(s.read)[l];
    }
    NextKeepsFlow(s, a, 0);
    OnceEachByLine(Next(s, a));
  }

  // The right values

  lemma AllRightLater(input: seq<Item>, read: nat, later: nat, stage: nat, q: seq<Token>)
    requires read <= later <= |input| && AllRight(input, read, stage, q)
    ensures AllRight(input, later, stage, q)
  {
    hide AtStage;
    assert forall k :: 0 <= k < |q| ==> Right(input, read, stage, q[k]);
  }

  lemma ThreadsRightLater(input: seq<Item>, read: nat, later: nat, pcs: seq<Pc>)
    requires read <= later <= |input| && ThreadsRight(input, read, pcs)
    ensures ThreadsRight(input, later, pcs)
  {
    hide AtStage, Load;
    assert forall t: Tid :: t < |pcs| ==> CarriesRight(input, read, pcs[t]);
  }

  lemma AllRightAppend(input: seq<Item>, read: nat, stage: nat, q: seq<Token>, x: Token)
    requires read <= |input| && AllRight(input, read, stage, q) && Right(input, read, stage, x)
    ensures AllRight(input, read, stage, q + [x])
  {
    hide Right;
  }

  lemma AllRightTail(input: seq<Item>, read: nat, stage: nat, q: seq<Token>)
    requires read <= |input| && AllRight(input, read, stage, q) && q != []
    ensures Right(input, read, stage, q[0]) && AllRight(input, read, stage, q[1..])
  {
    hide Right;
  }

  lemma QueueRight(input: seq<Item>, read: nat, queues: seq<seq<Token>>, i: nat)
    requires read <= |input| && |queues| == 3 && QueuesRight(input, read, queues) && i < 3
    ensures AllRight(input, read, i, queues[i])
    ensures forall q :: AllRight(input, read, i, q) ==> QueuesRight(input, read, queues[i := q])
  {
    hide AllRight;
  }

  lemma ThreadRight(input: seq<Item>, read: nat, pcs: seq<Pc>, t: Tid)
    requires read <= |input| && ThreadsRight(input, read, pcs) && t < |pcs|
    ensures CarriesRight(input, read, pcs[t])
    ensures forall p :: CarriesRight(input, read, p) ==> ThreadsRight(input, read, pcs[t := p])
  {
    hide CarriesRight;
  }

  lemma WakeUpKeepsRight(input: seq<Item>, read: nat, pcs: seq<Pc>, wakes: Option<Tid>)
    requires read <= |input| && ThreadsRight(input, read, pcs)
    ensures ThreadsRight(input, read, WakeUp(pcs, wakes))
  {
    hide Right, Load, WithPhase, IsWaiting;
    assert |WakeUp(pcs, wakes)| == |pcs|;
    forall u: Tid | u < |pcs|
      ensures CarriesRight(input, read, WakeUp(pcs, wakes)[u])
    {
      WakeUpKeepsLoads(pcs, wakes, u);
      assert CarriesRight(input, read, pcs[u]);
    }
  }

  /** A stage takes an item that is right to the one that is right after it; a line just read is right. */
  lemma LocalKeepsValue(s: State, t: Tid)
    requires WellFormed(s) && t < |s.pcs| && IsLocal(s.pcs[t]) && CarriesRight(s.input, s.read, s.pcs[t])
    ensures var s' := LocalStep(s, t);
            && WellFormed(s') && s'.input == s.input && s.read <= s'.read && s'.queues == s.queues
            && s'.pcs == s.pcs[t := s'.pcs[t]] && CarriesRight(s.input, s'.read, s'.pcs[t])
  {
    hide Produce, Consume;
  }

  lemma LocalKeepsWritten(s: State, t: Tid)
    requires WellFormed(s) && t < |s.pcs| && IsLocal(s.pcs[t]) && CarriesRight(s.input, s.read, s.pcs[t])
    requires AllRight(s.input, s.read, 2, s.written)
    ensures AllRight(s.input, s.read, 2, LocalStep(s, t).written)
  {
    hide AllRight, Right;
    if s.pcs[t].WriterWrite? {
      AllRightAppend(s.input, s.read, 2, s.written, s.pcs[t].token);
    }
  }

  lemma LocalKeepsValues(s: State, t: Tid)
    requires WellFormed(s) && t < |s.pcs| && IsLocal(s.pcs[t]) && ValuesOk(s)
    ensures WellFormed(LocalStep(s, t)) && ValuesOk(LocalStep(s, t))
  {
    hide LocalStep, IsLocal, AllRight, ThreadsRight, CarriesRight;
    var s' := LocalStep(s, t);
    ThreadRight(s.input, s.read, s.pcs, t);
    LocalKeepsValue(s, t);
    LocalKeepsWritten(s, t);
    ThreadsRightLater(s.input, s.read, s'.read, s.pcs);
    ThreadRight(s.input, s'.read, s.pcs, t);
    AllRightLater(s.input, s.read, s'.read, 0, s.queues[0]);
    AllRightLater(s.input, s.read, s'.read, 1, s.queues[1]);
    AllRightLater(s.input, s.read, s'.read, 2, s.queues[2]);
    AllRightLater(s.input, s.read, s'.read, 2, s'.written);
  }

  lemma SameLoad(input: seq<Item>, read: nat, p: Pc, q: Pc)
    requires read <= |input| && (Load(q) == Load(p) || Load(q).None?) && CarriesRight(input, read, p)
    ensures CarriesRight(input, read, q)
  {
    hide Load, Right;
  }

  lemma StoreKeepsValues(s: State, t: Tid, wakes: Option<Tid>)
    requires WellFormed(s) && t < |s.pcs| && Stores(s.pcs[t]).Some? && ValuesOk(s)
    ensures WellFormed(StoreStep(s, t, wakes)) && ValuesOk(StoreStep(s, t, wakes))
  {
    hide AllRight, ThreadsRight, QueuesRight, Right, Load, WithPhase, AfterStore, WakeUp, Carries;
    var p := s.pcs[t];
    var i := Stores(p).value.0;
    ThreadRight(s.input, s.read, s.pcs, t);
    QueueRight(s.input, s.read, s.queues, i);
    HeldByStorer(p);
    HeldWithPhase(p, Waiting);
    SameLoad(s.input, s.read, p, WithPhase(p, Waiting));
    SameLoad(s.input, s.read, p, AfterStore(p));
    AllRightAppend(s.input, s.read, i, s.queues[i], Carries(p));
    WakeUpKeepsRight(s.input, s.read, s.pcs[t := AfterStore(p)], wakes);
  }

  lemma FetchKeepsValues(s: State, t: Tid, wakes: Option<Tid>)
    requires WellFormed(s) && t < |s.pcs| && Fetches(s.pcs[t]).Some? && ValuesOk(s)
    ensures WellFormed(FetchStep(s, t, wakes)) && ValuesOk(FetchStep(s, t, wakes))
  {
    hide AllRight, ThreadsRight, QueuesRight, Right, Load, WithPhase, AfterFetch, WakeUp;
    var p := s.pcs[t];
    var i := Fetches(p).value.0;
    ThreadRight(s.input, s.read, s.pcs, t);
    QueueRight(s.input, s.read, s.queues, i);
    if s.queues[i] == [] {
      HeldWithPhase(p, Waiting);
      SameLoad(s.input, s.read, p, WithPhase(p, Waiting));
    } else {
      var x := s.queues[i][0];
      HeldByFetcher(p, x);
      AllRightTail(s.input, s.read, i, s.queues[i]);
      assert CarriesRight(s.input, s.read, AfterFetch(p, x));
      WakeUpKeepsRight(s.input, s.read, s.pcs[t := AfterFetch(p, x)], wakes);
    }
  }

  lemma RestKeepsValues(s: State, a: Action)
    requires WellFormed(s) && Enabled(s, a) && !a.Local? && !a.Store? && !a.Fetch? && ValuesOk(s)
    ensures WellFormed(Next(s, a)) && ValuesOk(Next(s, a))
  {
    hide AllRight, QueuesRight, Right, WithPhase;
    match a
    case Exit(t) => ThreadRight(s.input, s.read, s.pcs, t);
    case Spurious(t) =>
      ThreadRight(s.input, s.read, s.pcs, t);
      HeldWithPhase(s.pcs[t], Awake);
      SameLoad(s.input, s.read, s.pcs[t], WithPhase(s.pcs[t], Awake));
    case _ =>
  }

  lemma NextKeepsConserved(s: State, a: Action)
    requires WellFormed(s) && Enabled(s, a) && Conserved(s)
    ensures WellFormed(Next(s, a)) && Conserved(Next(s, a))
  {
    hide OnceEach, ValuesOk, LocalStep, StoreStep, FetchStep;
    NextKeepsOnceEach(s, a);
    match a
    case Local(t) => LocalKeepsValues(s, t);
    case Store(t, wakes) => StoreKeepsValues(s, t, wakes);
    case Fetch(t, wakes) => FetchKeepsValues(s, t, wakes);
    case _ => RestKeepsValues(s, a);
  }

  // ---------- No lost wakeup ----------

  /** How many threads wait for, or have been woken to get, an item or room in a queue. */
  datatype Tally = Tally(fetchWaits: int, fetchAwake: int, storeWaits: int, storeAwake: int)
  {
    function Move(gone: Tally, come: Tally): Tally {
      Tally(fetchWaits - gone.fetchWaits + come.fetchWaits, fetchAwake - gone.fetchAwake + come.fetchAwake,
            storeWaits - gone.storeWaits + come.storeWaits, storeAwake - gone.storeAwake + come.storeAwake)
    }
  }

  function Is(f: Pc -> bool, p: Pc): int { if f(p) then 1 else 0 }

  function TallyOf(p: Pc, i: nat): Tally {
    Tally(Is(FetchWaits(i), p), Is(FetchAwake(i), p), Is(StoreWaits(i), p), Is(StoreAwake(i), p))
  }

  ghost function Tallies(pcs: seq<Pc>, i: nat): (c: Tally)
    ensures c.fetchWaits >= 0 && c.fetchAwake >= 0 && c.storeWaits >= 0 && c.storeAwake >= 0
  {
    Tally(Count(pcs, FetchWaits(i)), Count(pcs, FetchAwake(i)), Count(pcs, StoreWaits(i)), Count(pcs, StoreAwake(i)))
  }

  /** While someone waits for an item, each item has a woken thread coming for it; while someone
      waits for room, each free slot has one. */
  ghost predicate Covered(c: Tally, size: int, cap: int) {
    && 0 < cap && size <= cap
    && (c.fetchWaits > 0 ==> size <= c.fetchAwake)
    && (c.storeWaits > 0 ==> cap - size <= c.storeAwake)
  }

  ghost predicate QueueOk(s: State, i: nat)
    requires WellFormed(s) && i < 3
  {
    Covered(Tallies(s.pcs, i), |s.queues[i]|, s.caps[i])
  }

  lemma TallyUpdate(pcs: seq<Pc>, t: nat, p: Pc, i: nat)
    requires t < |pcs|
    ensures Tallies(pcs[t := p], i) == Tallies(pcs, i).Move(TallyOf(pcs[t], i), TallyOf(p, i))
  {
    hide FetchWaits, FetchAwake, StoreWaits, StoreAwake;
    CountUpdate(pcs, FetchWaits(i), t, p);
    CountUpdate(pcs, FetchAwake(i), t, p);
    CountUpdate(pcs, StoreWaits(i), t, p);
    CountUpdate(pcs, StoreAwake(i), t, p);
  }

  const ZERO := Tally(0, 0, 0, 0)
  const NO_TOKEN := Token(0, Item(0, 0, 'A'))

  lemma TallyOfBusy(p: Pc, i: nat)
    requires Fetches(p).None? && Stores(p).None?
    ensures TallyOf(p, i) == ZERO
  {
  }

  lemma TallyOfStorer(p: Pc, ph: Phase, i: nat)
    requires Stores(p).Some?
    ensures var mine := i == Stores(p).value.0;
            && TallyOf(p, i) == Tally(0, 0, if mine && Stores(p).value.1.Waiting? then 1 else 0,
                                      if mine && Stores(p).value.1.Awake? then 1 else 0)
            && TallyOf(WithPhase(p, ph), i) == Tally(0, 0, if mine && ph.Waiting? then 1 else 0,
                                                           if mine && ph.Awake? then 1 else 0)
            && TallyOf(AfterStore(p), i) == ZERO && !FetchWaits(i)(p) && !FetchWaits(i)(AfterStore(p))
  {
  }

  lemma TallyOfFetcher(p: Pc, ph: Phase, x: Token, i: nat)
    requires Fetches(p).Some?
    ensures var mine := i == Fetches(p).value.0;
            && TallyOf(p, i) == Tally(if mine && Fetches(p).value.1.Waiting? then 1 else 0,
                                      if mine && Fetches(p).value.1.Awake? then 1 else 0, 0, 0)
            && TallyOf(WithPhase(p, ph), i) == Tally(if mine && ph.Waiting? then 1 else 0,
                                                     if mine && ph.Awake? then 1 else 0, 0, 0)
            && TallyOf(AfterFetch(p, x), i) == ZERO && !StoreWaits(i)(p) && !StoreWaits(i)(AfterFetch(p, x))
  {
  }

  /** The effect of `signal` on the tallies of queue `i`, when it goes to the fetchers of queue `j`. */
  lemma SignalFetcher(pcs: seq<Pc>, wakes: Option<Tid>, j: nat, i: nat)
    requires SignalOk(pcs, FetchWaits(j), wakes)
    ensures Tallies(WakeUp(pcs, wakes), i)
         == if i == j && wakes.Some? then Tallies(pcs, i).Move(Tally(1, 0, 0, 0), Tally(0, 1, 0, 0)) else Tallies(pcs, i)
  {
    match wakes
    case None =>
    case Some(u) =>
      TallyUpdate(pcs, u, WithPhase(pcs[u], Awake), i);
      TallyOfFetcher(pcs[u], Awake, NO_TOKEN, i);
  }

  lemma SignalStorer(pcs: seq<Pc>, wakes: Option<Tid>, j: nat, i: nat)
    requires SignalOk(pcs, StoreWaits(j), wakes)
    ensures Tallies(WakeUp(pcs, wakes), i)
         == if i == j && wakes.Some? then Tallies(pcs, i).Move(Tally(0, 0, 1, 0), Tally(0, 0, 0, 1)) else Tallies(pcs, i)
  {
    match wakes
    case None =>
    case Some(u) =>
      TallyUpdate(pcs, u, WithPhase(pcs[u], Awake), i);
      TallyOfStorer(pcs[u], Awake, i);
  }

  lemma StoreKeepsQueue(s: State, t: Tid, wakes: Option<Tid>, i: nat)
    requires WellFormed(s) && Enabled(s, Store(t, wakes)) && i < 3 && QueueOk(s, i)
    ensures QueueOk(StoreStep(s, t, wakes), i)
  {
    hide TallyOf, Tallies, WithPhase, AfterStore, WakeUp, Carries;
    var p := s.pcs[t];
    var j := Stores(p).value.0;
    TallyOfStorer(p, Waiting, i);
    if |s.queues[j]| >= s.caps[j] {
      TallyUpdate(s.pcs, t, WithPhase(p, Waiting), i);
    } else {
      var pcs1 := s.pcs[t := AfterStore(p)];
      TallyUpdate(s.pcs, t, AfterStore(p), i);
      TallyUpdate(s.pcs, t, AfterStore(p), j);
      TallyOfStorer(p, Waiting, j);
      SignalStillOk(s.pcs, t, AfterStore(p), FetchWaits(j), wakes);
      SignalFetcher(pcs1, wakes, j, i);
      NoWaiters(pcs1, j, wakes);
    }
  }

  /** Whom `signal` may wake does not depend on the signaller's own place. */
  lemma SignalStillOk(pcs: seq<Pc>, t: Tid, p: Pc, waits: Pc -> bool, wakes: Option<Tid>)
    requires t < |pcs| && !waits(pcs[t]) && !waits(p) && SignalOk(pcs, waits, wakes)
    ensures SignalOk(pcs[t := p], waits, wakes)
  {
    CountUpdate(pcs, waits, t, p);
  }

  lemma NoWaiters(pcs: seq<Pc>, i: nat, wakes: Option<Tid>)
    ensures SignalOk(pcs, FetchWaits(i), wakes) && wakes.None? ==> Tallies(pcs, i).fetchWaits == 0
    ensures SignalOk(pcs, StoreWaits(i), wakes) && wakes.None? ==> Tallies(pcs, i).storeWaits == 0
  {
  }

  lemma FetchKeepsQueue(s: State, t: Tid, wakes: Option<Tid>, i: nat)
    requires WellFormed(s) && Enabled(s, Fetch(t, wakes)) && i < 3 && QueueOk(s, i)
    ensures QueueOk(FetchStep(s, t, wakes), i)
  {
    hide TallyOf, Tallies, WithPhase, AfterFetch, WakeUp;
    var p := s.pcs[t];
    var j := Fetches(p).value.0;
    if s.queues[j] == [] {
      TallyOfFetcher(p, Waiting, NO_TOKEN, i);
      TallyUpdate(s.pcs, t, WithPhase(p, Waiting), i);
    } else {
      var x := s.queues[j][0];
      var pcs1 := s.pcs[t := AfterFetch(p, x)];
      TallyOfFetcher(p, Waiting, x, i);
      TallyUpdate(s.pcs, t, AfterFetch(p, x), i);
      TallyUpdate(s.pcs, t, AfterFetch(p, x), j);
      TallyOfFetcher(p, Waiting, x, j);
      SignalStillOk(s.pcs, t, AfterFetch(p, x), StoreWaits(j), wakes);
      SignalStorer(pcs1, wakes, j, i);
      NoWaiters(pcs1, j, wakes);
    }
  }

  lemma LocalTally(s: State, t: Tid, i: nat)
    requires WellFormed(s) && t < |s.pcs| && IsLocal(s.pcs[t])
    ensures var s' := LocalStep(s, t);
            && WellFormed(s') && s'.pcs == s.pcs[t := s'.pcs[t]] && s'.queues == s.queues && s'.caps == s.caps
            && TallyOf(s.pcs[t], i) == TallyOf(s'.pcs[t], i) == ZERO
  {
    hide TallyOf, Produce, Consume;
    TallyOfBusy(s.pcs[t], i);
    if Fetches(LocalStep(s, t).pcs[t]).None? && Stores(LocalStep(s, t).pcs[t]).None? {
      TallyOfBusy(LocalStep(s, t).pcs[t], i);
    } else {
      TallyOfTrying(LocalStep(s, t).pcs[t], i);
    }
  }

  lemma TallyOfTrying(p: Pc, i: nat)
    requires Fetches(p).Some? ==> Fetches(p).value.1.Trying?
    requires Stores(p).Some? ==> Stores(p).value.1.Trying?
    ensures TallyOf(p, i) == ZERO
  {
  }

  lemma LocalKeepsQueue(s: State, t: Tid, i: nat)
    requires WellFormed(s) && t < |s.pcs| && IsLocal(s.pcs[t]) && i < 3 && QueueOk(s, i)
    ensures WellFormed(LocalStep(s, t)) && QueueOk(LocalStep(s, t), i)
  {
    hide Tallies, TallyOf, LocalStep, IsLocal;
    LocalTally(s, t, i);
    TallyUpdate(s.pcs, t, LocalStep(s, t).pcs[t], i);
  }

  lemma RestKeepsQueue(s: State, a: Action, i: nat)
    requires WellFormed(s) && Enabled(s, a) && !a.Local? && !a.Store? && !a.Fetch? && i < 3 && QueueOk(s, i)
    ensures WellFormed(Next(s, a)) && QueueOk(Next(s, a), i)
  {
    hide Tallies, TallyOf, WithPhase;
    match a
    case Exit(t) =>
      TallyOfBusy(ConsumerTop, i);
      TallyOfBusy(ConsumerDone, i);
      TallyUpdate(s.pcs, t, ConsumerDone, i);
    case Spurious(t) =>
      TallyUpdate(s.pcs, t, WithPhase(s.pcs[t], Awake), i);
      if Stores(s.pcs[t]).Some? {
        TallyOfStorer(s.pcs[t], Awake, i);
      } else {
        TallyOfFetcher(s.pcs[t], Awake, NO_TOKEN, i);
      }
    case ScaleUp(_) => NewcomerNotTallied(s.pcs, i);
    case ScaleDown(_) =>
  }

  lemma NextKeepsQueue(s: State, a: Action, i: nat)
    requires WellFormed(s) && Enabled(s, a) && i < 3 && QueueOk(s, i)
    ensures WellFormed(Next(s, a)) && QueueOk(Next(s, a), i)
  {
    hide QueueOk;
    match a
    case Local(t) => LocalKeepsQueue(s, t, i);
    case Store(t, wakes) => StoreKeepsQueue(s, t, wakes, i);
    case Fetch(t, wakes) => FetchKeepsQueue(s, t, wakes, i);
    case _ => RestKeepsQueue(s, a, i);
  }

  lemma NewcomerNotTallied(pcs: seq<Pc>, i: nat)
    ensures Tallies(pcs + [ConsumerTop], i) == Tallies(pcs, i)
  {
    assert (pcs + [ConsumerTop])[..|pcs|] == pcs;
  }
}
