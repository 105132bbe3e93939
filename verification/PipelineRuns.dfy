/** Whole runs of the pthread pipeline: what is written in the end, and why it never gets stuck. */
module PipelineRuns {
  import opened Common
  import opened Semaphores
  import opened Transformers
  import opened Pipelines

  // ---------- Which thread runs which loop ----------

  datatype Role = Reader | Writer | Producer | Consumer

  function RoleOf(p: Pc): Role {
    match p
    case ReaderTop | ReaderPut(_, _) | ReaderDone => Reader
    case ProducerGet(_) | ProducerWork(_) | ProducerPut(_, _) => Producer
    case ConsumerTop | ConsumerGet(_) | ConsumerWork(_) | ConsumerPut(_, _) | ConsumerDone => Consumer
    case WriterTop | WriterGet(_) | WriterWrite(_) | WriterDone => Writer
  }

  function RoleAt(producers: nat, t: Tid): Role {
    if t == 0 then Reader else if t == 1 then Writer else if t < 2 + producers then Producer else Consumer
  }

  ghost predicate RolesOk(s: State) {
    && |s.pcs| >= 2 + s.producers
    && forall t: Tid :: t < |s.pcs| ==> RoleOf(s.pcs[t]) == RoleAt(s.producers, t)
  }

  /** The controller's vector holds consumers that were never cancelled; once it holds one it always does. */
  ghost predicate PoolOk(s: State) {
    && (forall k :: 0 <= k < |s.pool| ==> 2 + s.producers <= s.pool[k] < |s.pcs| && s.pool[k] !in s.cancelled)
    && (forall j, k :: 0 <= j < k < |s.pool| ==> s.pool[j] < s.pool[k])
    && (forall t: Tid :: t in s.cancelled ==> t < |s.pcs|)
    && (forall t: Tid :: t < |s.pcs| && s.pcs[t].ConsumerDone? ==> t in s.cancelled)
    && (s.pool == [] ==> |s.pcs| == 2 + s.producers)
  }

  /** The reader and the writer stop exactly after `n` items. */
  ghost predicate CountsOk(s: State) {
    && |s.pcs| >= 2 && |s.written| <= s.n
    && (s.pcs[0].ReaderDone? ==> s.read == s.n)
    && (s.pcs[1].WriterDone? ==> |s.written| == s.n)
    && (s.pcs[1].WriterGet? || s.pcs[1].WriterWrite? ==> |s.written| < s.n)
  }

  ghost predicate Shape(s: State) {
    RolesOk(s) && PoolOk(s) && CountsOk(s)
  }

  /** A thread that does not act is at most woken up. */
  predicate SameKind(p: Pc, q: Pc) {
    p == q || (IsWaiting(p) && q == WithPhase(p, Awake))
  }

  lemma SameKindMeans(p: Pc, q: Pc)
    requires SameKind(p, q)
    ensures RoleOf(p) == RoleOf(q)
    ensures p.ReaderDone? == q.ReaderDone? && p.WriterDone? == q.WriterDone? && p.ConsumerDone? == q.ConsumerDone?
    ensures p.WriterGet? == q.WriterGet? && p.WriterWrite? == q.WriterWrite?
  {
  }

  lemma WakeUpKeepsKinds(pcs: seq<Pc>, wakes: Option<Tid>, u: Tid)
    requires u < |pcs|
    ensures |WakeUp(pcs, wakes)| == |pcs| && SameKind(pcs[u], WakeUp(pcs, wakes)[u])
    ensures !IsWaiting(pcs[u]) ==> WakeUp(pcs, wakes)[u] == pcs[u]
  {
    hide WithPhase, IsWaiting;
  }

  /** What the acting thread itself must see to. */
  ghost predicate Own(s: State, s': State, t: Tid)
    requires t < |s.pcs| == |s'.pcs|
  {
    var q := s'.pcs[t];
    && RoleOf(q) == RoleOf(s.pcs[t])
    && s.read <= s'.read && (q.ReaderDone? ==> s'.read == s'.n)
    && (!RoleOf(q).Writer? ==> s'.written == s.written)
    && |s'.written| <= s'.n && (q.WriterDone? ==> |s'.written| == s'.n)
    && (q.WriterGet? || q.WriterWrite? ==> |s'.written| < s'.n)
    && (q.ConsumerDone? ==> t in s.cancelled)
  }

  ghost predicate SameRun(s: State, s': State) {
    s'.producers == s.producers && s'.n == s.n && s'.input == s.input && s'.caps == s.caps
  }

  /** One thread acts; the controller does not. */
  ghost predicate ThreadStep(s: State, s': State, t: Tid) {
    && t < |s.pcs| == |s'.pcs| && SameRun(s, s') && s'.pool == s.pool && s'.cancelled == s.cancelled
    && (forall u: Tid :: u < |s.pcs| && u != t ==> SameKind(s.pcs[u], s'.pcs[u]))
    && Own(s, s', t)
  }

  lemma ThreadStepKeepsShape(s: State, s': State, t: Tid)
    requires WellFormed(s) && Shape(s) && WellFormed(s') && ThreadStep(s, s', t)
    ensures Shape(s')
  {
    hide SameKind, RoleOf;
    forall u: Tid | u < |s.pcs| && u != t
      ensures RoleOf(s'.pcs[u]) == RoleOf(s.pcs[u])
      ensures s'.pcs[u].ConsumerDone? ==> u in s.cancelled
    {
      SameKindMeans(s.pcs[u], s'.pcs[u]);
    }
    if t != 0 {
      SameKindMeans(s.pcs[0], s'.pcs[0]);
    }
    if t != 1 {
      SameKindMeans(s.pcs[1], s'.pcs[1]);
      assert RoleOf(s.pcs[t]) == RoleAt(s.producers, t);
    }
  }

  lemma LocalIsThreadStep(s: State, t: Tid)
    requires WellFormed(s) && Shape(s) && t < |s.pcs| && IsLocal(s.pcs[t])
    ensures WellFormed(LocalStep(s, t)) && ThreadStep(s, LocalStep(s, t), t)
  {
    hide Produce, Consume;
    assert RoleOf(s.pcs[t]) == RoleAt(s.producers, t);
  }

  lemma StorerRole(p: Pc, ph: Phase)
    requires Stores(p).Some?
    ensures RoleOf(p) == RoleOf(WithPhase(p, ph)) == RoleOf(AfterStore(p)) && !RoleOf(p).Writer?
    ensures !AfterStore(p).ReaderDone? && !WithPhase(p, ph).ReaderDone?
    ensures !AfterStore(p).ConsumerDone? && !WithPhase(p, ph).ConsumerDone?
    ensures !IsWaiting(AfterStore(p))
  {
  }

  lemma FetcherRole(p: Pc, ph: Phase, x: Token)
    requires Fetches(p).Some?
    ensures RoleOf(p) == RoleOf(WithPhase(p, ph)) == RoleOf(AfterFetch(p, x))
    ensures var q, r := WithPhase(p, ph), AfterFetch(p, x);
            && !q.ReaderDone? && !q.ConsumerDone? && !q.WriterDone? && (q.WriterGet? || q.WriterWrite? ==> p.WriterGet?)
            && !r.ReaderDone? && !r.ConsumerDone? && !r.WriterDone? && (r.WriterGet? || r.WriterWrite? ==> p.WriterGet?)
    ensures !IsWaiting(AfterFetch(p, x))
  {
  }

  /** The writer is thread 1. */
  lemma WriterIsOne(s: State, t: Tid)
    requires RolesOk(s) && t < |s.pcs|
    ensures s.pcs[t].WriterGet? ==> t == 1
  {
    assert RoleOf(s.pcs[t]) == RoleAt(s.producers, t);
  }

  lemma StoreIsThreadStep(s: State, t: Tid, wakes: Option<Tid>)
    requires WellFormed(s) && Shape(s) && t < |s.pcs| && Stores(s.pcs[t]).Some?
    ensures WellFormed(StoreStep(s, t, wakes)) && ThreadStep(s, StoreStep(s, t, wakes), t)
  {
    hide WithPhase, WakeUp, AfterStore, RoleOf, IsWaiting;
    var p := s.pcs[t];
    StorerRole(p, Waiting);
    var pcs1 := s.pcs[t := AfterStore(p)];
    WakeUpKeepsKinds(pcs1, wakes, t);
    forall u: Tid | u < |s.pcs|
      ensures SameKind(pcs1[u], WakeUp(pcs1, wakes)[u])
    {
      WakeUpKeepsKinds(pcs1, wakes, u);
    }
    assert RoleOf(StoreStep(s, t, wakes).pcs[t]) == RoleOf(p);
    NotTheWriter(p);
    NotTheWriter(StoreStep(s, t, wakes).pcs[t]);
  }

  lemma NotTheWriter(p: Pc)
    ensures !RoleOf(p).Writer? ==> !p.WriterGet? && !p.WriterWrite? && !p.WriterDone?
  {
  }

  lemma FetchIsThreadStep(s: State, t: Tid, wakes: Option<Tid>)
    requires WellFormed(s) && Shape(s) && t < |s.pcs| && Fetches(s.pcs[t]).Some?
    ensures WellFormed(FetchStep(s, t, wakes)) && ThreadStep(s, FetchStep(s, t, wakes), t)
  {
    hide WithPhase, WakeUp, AfterFetch, RoleOf, IsWaiting;
    var p := s.pcs[t];
    WriterIsOne(s, t);
    if s.queues[Fetches(p).value.0] == [] {
      FetcherRole(p, Waiting, NO_TOKEN);
    } else {
      var x := s.queues[Fetches(p).value.0][0];
      FetcherRole(p, Waiting, x);
      var pcs1 := s.pcs[t := AfterFetch(p, x)];
      WakeUpKeepsKinds(pcs1, wakes, t);
      forall u: Tid | u < |s.pcs|
        ensures SameKind(pcs1[u], WakeUp(pcs1, wakes)[u])
      {
        WakeUpKeepsKinds(pcs1, wakes, u);
      }
    }
  }

  lemma SpuriousIsThreadStep(s: State, t: Tid)
    requires WellFormed(s) && Shape(s) && t < |s.pcs| && IsWaiting(s.pcs[t])
    ensures ThreadStep(s, Next(s, Spurious(t)), t)
  {
    hide WithPhase;
    WriterIsOne(s, t);
    var p := s.pcs[t];
    if Stores(p).Some? {
      StorerRole(p, Awake);
      NotTheWriter(p);
      NotTheWriter(WithPhase(p, Awake));
    } else {
      FetcherRole(p, Awake, NO_TOKEN);
    }
  }

  lemma NextKeepsShape(s: State, a: Action)
    requires WellFormed(s) && Enabled(s, a) && Shape(s)
    ensures WellFormed(Next(s, a)) && Shape(Next(s, a)) && SameRun(s, Next(s, a))
  {
    hide Shape, LocalStep, StoreStep, FetchStep, ThreadStep, SameRun;
    match a
    case Local(t) => LocalIsThreadStep(s, t); Concluded(s, Next(s, a), t);
    case Store(t, wakes) => StoreIsThreadStep(s, t, wakes); Concluded(s, Next(s, a), t);
    case Fetch(t, wakes) => FetchIsThreadStep(s, t, wakes); Concluded(s, Next(s, a), t);
    case Spurious(t) => SpuriousIsThreadStep(s, t); Concluded(s, Next(s, a), t);
    case Exit(t) => ExitIsThreadStep(s, t); Concluded(s, Next(s, a), t);
    case ScaleUp(_) => ScaleKeepsShape(s, a);
    case ScaleDown(_) => ScaleKeepsShape(s, a);
  }

  lemma Concluded(s: State, s': State, t: Tid)
    requires WellFormed(s) && Shape(s) && WellFormed(s') && ThreadStep(s, s', t)
    ensures Shape(s') && SameRun(s, s')
  {
    hide Shape, SameRun;
    ThreadStepKeepsShape(s, s', t);
  }

  lemma ExitIsThreadStep(s: State, t: Tid)
    requires WellFormed(s) && Shape(s) && Enabled(s, Exit(t))
    ensures WellFormed(Next(s, Exit(t))) && ThreadStep(s, Next(s, Exit(t)), t)
  {
  }

  lemma ScaleKeepsShape(s: State, a: Action)
    requires WellFormed(s) && Enabled(s, a) && Shape(s) && (a.ScaleUp? || a.ScaleDown?)
    ensures WellFormed(Next(s, a)) && Shape(Next(s, a)) && SameRun(s, Next(s, a))
  {
    assert RoleOf(ConsumerTop) == Consumer;
  }

  // ---------- Runs ----------

  ghost predicate QueuesOk(s: State)
    requires WellFormed(s)
  {
    QueueOk(s, 0) && QueueOk(s, 1) && QueueOk(s, 2)
  }

  /** Only consumers feed the writer. */
  ghost predicate NoConsumerNoOutput(s: State) {
    s.pool == [] ==> |s.queues| == 3 && s.queues[2] == [] && s.written == [] && |s.pcs| > 1 && !s.pcs[1].WriterWrite?
  }

  ghost predicate Inv(s: State) {
    WellFormed(s) && Conserved(s) && QueuesOk(s) && Shape(s) && NoConsumerNoOutput(s)
  }

  ghost predicate Initial(s: State) {
    && WellFormed(s) && s.read == 0 && s.queues == [[], [], []] && (forall i :: 0 <= i < 3 ==> s.caps[i] > 0)
    && s.pcs == [ReaderTop, WriterTop] + seq(s.producers, _ => ProducerGet(Trying))
    && s.cancelled == {} && s.pool == [] && s.written == []
  }

  ghost predicate IsRun(ss: seq<State>, acts: seq<Action>) {
    && |ss| == |acts| + 1 && Initial(ss[0])
    && forall i :: 0 <= i < |acts| ==> WellFormed(ss[i]) && Enabled(ss[i], acts[i]) && ss[i + 1] == Next(ss[i], acts[i])
  }

  lemma {:induction false} NothingHeld(pcs: seq<Pc>)
    requires forall t: Tid :: t < |pcs| ==> Load(pcs[t]).None?
    ensures AllHeld(pcs) == multiset{}
  {
    hide Load;
    if pcs != [] {
      NothingHeld(pcs[..|pcs| - 1]);
    }
  }

  lemma InitialThread(s: State, t: Tid)
    requires Initial(s) && t < |s.pcs|
    ensures RoleOf(s.pcs[t]) == RoleAt(s.producers, t) && Load(s.pcs[t]).None?
    ensures Fetches(s.pcs[t]).Some? || Stores(s.pcs[t]).Some? ==> !IsWaiting(s.pcs[t])
    ensures !s.pcs[t].ReaderDone? && !s.pcs[t].ConsumerDone? && !s.pcs[t].WriterDone?
  {
    var p := s.pcs[t];
    assert p == ReaderTop || p == WriterTop || p == ProducerGet(Trying);
  }

  lemma InitialShape(s: State)
    requires Initial(s)
    ensures Shape(s)
  {
    forall t: Tid | t < |s.pcs|
      ensures RoleOf(s.pcs[t]) == RoleAt(s.producers, t) && !s.pcs[t].ConsumerDone?
    {
      InitialThread(s, t);
    }
  }

  lemma InitialConserved(s: State)
    requires Initial(s)
    ensures Conserved(s)
  {
    hide Load;
    forall t: Tid | t < |s.pcs|
      ensures Load(s.pcs[t]).None?
    {
      InitialThread(s, t);
    }
    NothingHeld(s.pcs);
  }

  lemma InitialQueue(s: State, i: nat)
    requires Initial(s) && i < 3
    ensures QueueOk(s, i)
  {
    forall t: Tid | t < |s.pcs|
      ensures !FetchWaits(i)(s.pcs[t]) && !StoreWaits(i)(s.pcs[t])
    {
      InitialThread(s, t);
    }
    CountNone(s.pcs, FetchWaits(i));
    CountNone(s.pcs, StoreWaits(i));
  }

  lemma InitialInv(s: State)
    requires Initial(s)
    ensures Inv(s)
  {
    hide Conserved, QueueOk, Shape;
    InitialShape(s);
    InitialConserved(s);
    InitialQueue(s, 0);
    InitialQueue(s, 1);
    InitialQueue(s, 2);
  }

  lemma NextKeepsNoOutput(s: State, a: Action)
    requires WellFormed(s) && Enabled(s, a) && Shape(s) && NoConsumerNoOutput(s)
    ensures NoConsumerNoOutput(Next(s, a))
  {
    hide Produce, Consume, WithPhase;
    if s.pool == [] {
      match a
      case Local(t) => LocalIsThreadStep(s, t); WriterHolds(s, t);
      case Store(t, wakes) => StoreNoOutput(s, t, wakes);
      case Fetch(t, wakes) => FetchNoOutput(s, t, wakes);
      case Spurious(t) => SpuriousIsThreadStep(s, t); KindOfWriter(s, a);
      case Exit(t) => WriterHolds(s, t);
      case _ =>
    }
  }

  lemma WriterHolds(s: State, t: Tid)
    requires RolesOk(s) && t < |s.pcs|
    ensures (s.pcs[t].WriterWrite? || s.pcs[t].WriterTop? || s.pcs[t].WriterGet?) == (t == 1 && !s.pcs[1].WriterDone?)
  {
    assert RoleOf(s.pcs[t]) == RoleAt(s.producers, t);
  }

  lemma KindOfWriter(s: State, a: Action)
    requires WellFormed(s) && Shape(s) && a.Spurious? && Enabled(s, a)
    ensures |Next(s, a).pcs| == |s.pcs| && (Next(s, a).pcs[1].WriterWrite? ==> s.pcs[1].WriterWrite?)
  {
  }

  lemma StoreNoOutput(s: State, t: Tid, wakes: Option<Tid>)
    requires WellFormed(s) && Enabled(s, Store(t, wakes)) && Shape(s) && NoConsumerNoOutput(s) && s.pool == []
    ensures NoConsumerNoOutput(StoreStep(s, t, wakes))
  {
    hide WithPhase, WakeUp, AfterStore;
    assert Stores(s.pcs[t]).value.0 != 2 by {
      assert RoleOf(s.pcs[t]) == RoleAt(s.producers, t);
    }
    assert t != 1 by {
      StorerRole(s.pcs[t], Awake);
      assert RoleOf(s.pcs[t]) == RoleAt(s.producers, t);
    }
    StoreIsThreadStep(s, t, wakes);
    SameKindMeans(s.pcs[1], StoreStep(s, t, wakes).pcs[1]);
  }

  lemma FetchNoOutput(s: State, t: Tid, wakes: Option<Tid>)
    requires WellFormed(s) && Enabled(s, Fetch(t, wakes)) && Shape(s) && NoConsumerNoOutput(s) && s.pool == []
    ensures NoConsumerNoOutput(FetchStep(s, t, wakes))
  {
    hide WakeUp, AfterFetch;
    FetchIsThreadStep(s, t, wakes);
    if t != 1 {
      SameKindMeans(s.pcs[1], FetchStep(s, t, wakes).pcs[1]);
    } else {
      assert RoleOf(s.pcs[t]) == RoleAt(s.producers, t);
    }
  }

  lemma NextKeepsInv(s: State, a: Action)
    requires Inv(s) && Enabled(s, a)
    ensures Inv(Next(s, a)) && SameRun(s, Next(s, a))
  {
    hide Conserved, Shape, Next, NoConsumerNoOutput, QueueOk, SameRun;
    NextKeepsConserved(s, a);
    NextKeepsQueue(s, a, 0);
    NextKeepsQueue(s, a, 1);
    NextKeepsQueue(s, a, 2);
    NextKeepsShape(s, a);
    NextKeepsNoOutput(s, a);
  }

  /** The invariant holds in every state of every run, whatever the controller saw and did. */
  lemma {:induction false} RunKeepsInv(ss: seq<State>, acts: seq<Action>, k: nat)
    requires IsRun(ss, acts) && k < |ss|
    ensures Inv(ss[k]) && SameRun(ss[0], ss[k])
  {
    hide Inv, Next, Initial;
    if k == 0 {
      InitialInv(ss[0]);
    } else {
      RunKeepsInv(ss, acts, k - 1);
      NextKeepsInv(ss[k - 1], acts[k - 1]);
    }
  }

  // ---------- The output ----------

  lemma {:induction false} LinesSize(q: seq<Token>)
    ensures |Lines(q)| == |q|
  {
    if q != [] {
      LinesSize(q[..|q| - 1]);
    }
  }

  lemma {:induction false} UpToSize(n: nat)
    ensures |UpTo(n)| == n
  {
    if n > 0 {
      UpToSize(n - 1);
    }
  }

  /** What is under way and what is written add up to what was read. */
  lemma Balance(s: State)
    requires WellFormed(s) && Conserved(s)
    ensures |s.queues[0]| + |s.queues[1]| + |s.queues[2]| + |AllHeld(s.pcs)| + |s.written| == s.read
  {
    hide Lines, AllHeld, UpTo, ValuesOk;
    LinesSize(s.queues[0]);
    LinesSize(s.queues[1]);
    LinesSize(s.queues[2]);
    LinesSize(s.written);
    UpToSize(s.read);
  }

  /** The item that an input line should become: taken through the producer's, then the consumer's transformation. */
  function Result(x: Item): Item { Consume(Produce(x)) }

  /** Once the writer has its n items, they are the first n input lines, each exactly once, in some order,
      and each taken through both transformations. */
  lemma OutputComplete(s: State)
    requires Inv(s) && |s.written| == s.n
    ensures Lines(s.written) == UpTo(s.n)
    ensures forall k :: 0 <= k < s.n ==> s.written[k].line < s.n && s.written[k].item == Result(s.input[s.written[k].line])
    ensures s.read == s.n && s.queues == [[], [], []] && AllHeld(s.pcs) == multiset{}
  {
    hide Lines, AllHeld, UpTo, Shape, QueuesOk, Produce, Consume;
    Balance(s);
    assert AllHeld(s.pcs) == multiset{};
    assert s.queues[0] == [] && s.queues[1] == [] && s.queues[2] == [];
    NoLines();
    forall k | 0 <= k < s.n
      ensures s.written[k].line < s.n && s.written[k].item == Result(s.input[s.written[k].line])
    {
      assert Right(s.input, s.read, 2, s.written[k]);
    }
  }

  lemma NoLines()
    ensures Lines([]) == multiset{}
  {
  }

  function Items(q: seq<Token>): multiset<Item> {
    if q == [] then multiset{} else Items(q[..|q| - 1]) + multiset{q[|q| - 1].item}
  }

  function Results(input: seq<Item>, n: nat): multiset<Item>
    requires n <= |input|
  {
    if n == 0 then multiset{} else Results(input, n - 1) + multiset{Result(input[n - 1])}
  }

  lemma {:induction false} Concat(a: seq<Token>, b: seq<Token>)
    ensures Lines(a + b) == Lines(a) + Lines(b) && Items(a + b) == Items(a) + Items(b)
  {
    if b == [] {
      assert a + b == a;
    } else {
      assert (a + b)[..|a + b| - 1] == a + b[..|b| - 1];
      Concat(a, b[..|b| - 1]);
    }
  }

  lemma CutOut(q: seq<Token>, k: nat) returns (rest: seq<Token>)
    requires k < |q|
    ensures |rest| == |q| - 1 && forall x :: x in rest ==> x in q
    ensures Lines(q) == Lines(rest) + multiset{q[k].line} && Items(q) == Items(rest) + multiset{q[k].item}
  {
    hide Lines, Items;
    rest := q[..k] + q[k + 1..];
    Concat(q[..k], q[k + 1..]);
    Concat(q[..k] + [q[k]], q[k + 1..]);
    Concat(q[..k], [q[k]]);
    One(q[k]);
    assert q == q[..k] + [q[k]] + q[k + 1..];
  }

  lemma One(x: Token)
    ensures Lines([x]) == multiset{x.line} && Items([x]) == multiset{x.item}
  {
    assert [x][..0] == [];
  }

  lemma {:induction false} LineAt(q: seq<Token>, l: nat) returns (k: nat)
    requires l in Lines(q)
    ensures k < |q| && q[k].line == l
  {
    k := |q| - 1;
    if q[k].line != l {
      k := LineAt(q[..k], l);
    }
  }

  lemma LineOf(q: seq<Token>, k: nat)
    requires k < |q|
    ensures q[k].line in Lines(q)
  {
    var rest := CutOut(q, k);
  }

  lemma {:induction false} UpToHas(n: nat, l: nat)
    ensures UpTo(n)[l] == if l < n then 1 else 0
  {
    if n > 0 {
      UpToHas(n - 1, l);
    }
  }

  lemma CancelOne(a: multiset<nat>, b: multiset<nat>, l: nat)
    requires a + multiset{l} == b + multiset{l}
    ensures a == b
  {
    assert a == a + multiset{l} - multiset{l} && b == b + multiset{l} - multiset{l};
  }

  ghost predicate AreResults(input: seq<Item>, q: seq<Token>, n: nat)
    requires n <= |input|
  {
    Lines(q) == UpTo(n) && forall x :: x in q ==> x.line < n && x.item == Result(input[x.line])
  }

  /** Without the last line's item, the rest are the results of the lines before it. */
  lemma RestAreResults(input: seq<Item>, q: seq<Token>, n: nat, k: nat) returns (rest: seq<Token>)
    requires 0 < n <= |input| && AreResults(input, q, n) && k < |q| && q[k].line == n - 1
    ensures AreResults(input, rest, n - 1) && Items(q) == Items(rest) + multiset{Result(input[n - 1])}
  {
    hide Result, Lines, Items;
    rest := CutOut(q, k);
    assert q[k] in q;
    CancelOne(Lines(rest), UpTo(n - 1), n - 1);
    forall x | x in rest
      ensures x.line < n - 1
    {
      var j :| 0 <= j < |rest| && rest[j] == x;
      LineOf(rest, j);
      UpToHas(n - 1, x.line);
    }
  }

  lemma {:induction false} SameItems(input: seq<Item>, q: seq<Token>, n: nat)
    requires n <= |input| && AreResults(input, q, n)
    ensures Items(q) == Results(input, n)
    decreases n
  {
    hide Result, Lines;
    LinesSize(q);
    UpToSize(n);
    if n > 0 {
      UpToHas(n, n - 1);
      var k := LineAt(q, n - 1);
      var rest := RestAreResults(input, q, n, k);
      SameItems(input, rest, n - 1);
    }
  }

  /** As multisets, the items written are the results of the first n lines. */
  lemma OutputAsMultiset(s: State)
    requires Inv(s) && |s.written| == s.n
    ensures Items(s.written) == Results(s.input, s.n)
  {
    hide Result, Inv, Lines, UpTo;
    OutputComplete(s);
    InvWellFormed(s);
    SameItems(s.input, s.written, s.n);
  }

  lemma InvWellFormed(s: State)
    requires Inv(s)
    ensures WellFormed(s)
  {
  }

  /** Each written item is exactly what the iterations on integers make of its line
      if and only if that line's first product and sum fit in 64 bits. */
  lemma OutputExactIff(s: State, k: nat)
    requires Inv(s) && |s.written| == s.n && k < s.n && s.input[s.written[k].line].Valid()
    ensures s.written[k].item.val == IntegerOutput(s.input[s.written[k].line]) <==> Fits(s.input[s.written[k].line])
  {
    hide Fits, Produce, Consume, IntegerOutput, Conserved, QueuesOk, Shape, NoConsumerNoOutput;
    OutputComplete(s);
    ItemExactIff(s.input[s.written[k].line]);
  }

  /** The item that both iterations make of a line on unbounded integers. */
  function Exact(x: Item): Item
    requires Fits(x)
  {
    StagesDoNotWrap(x);
    x.(val := IntegerOutput(x))
  }

  function ExactOutputs(input: seq<Item>, n: nat): multiset<Item>
    requires n <= |input| && forall i :: 0 <= i < n ==> Fits(input[i])
  {
    if n == 0 then multiset{} else ExactOutputs(input, n - 1) + multiset{Exact(input[n - 1])}
  }

  lemma {:induction false} ResultsAreExact(input: seq<Item>, n: nat)
    requires n <= |input| && forall i :: 0 <= i < n ==> Fits(input[i])
    ensures Results(input, n) == ExactOutputs(input, n)
  {
    hide Fits, Produce, Consume, IntegerOutput;
    if n > 0 {
      ResultsAreExact(input, n - 1);
      StagesDoNotWrap(input[n - 1]);
    }
  }

  /** If every line's first product and sum fit, the output as a whole is that of the integers. */
  lemma OutputExact(s: State)
    requires Inv(s) && |s.written| == s.n
    requires forall i :: 0 <= i < s.n ==> Fits(s.input[i])
    ensures Items(s.written) == ExactOutputs(s.input, s.n)
  {
    hide Fits, Inv, Results, Items;
    OutputAsMultiset(s);
    InvWellFormed(s);
    ResultsAreExact(s.input, s.n);
  }

  // ---------- Order ----------

  predicate Acts(s: State, a: Action) {
    match a
    case Local(t) => t < |s.pcs|
    case Store(t, _) => t < |s.pcs|
    case Fetch(t, _) => t < |s.pcs|
    case _ => false
  }

  /** What a step puts into queue `i`: what the thread carries before, if it is rid of it afterwards. */
  function StoredNow(s: State, a: Action, s': State, i: nat): seq<Token>
    requires Acts(s, a) ==> a.t < |s'.pcs|
  {
    if Acts(s, a) && a.Store? && Stores(s.pcs[a.t]).Some? && Stores(s.pcs[a.t]).value.0 == i
       && Load(s.pcs[a.t]).Some? && Load(s'.pcs[a.t]).None?
    then [Load(s.pcs[a.t]).value.1] else []
  }

  /** What a step takes out of queue `i`: what the thread carries afterwards. */
  function FetchedNow(s: State, a: Action, s': State, i: nat): seq<Token>
    requires Acts(s, a) ==> a.t < |s'.pcs|
  {
    if Acts(s, a) && a.Fetch? && Fetches(s.pcs[a.t]).Some? && Fetches(s.pcs[a.t]).value.0 == i && Load(s'.pcs[a.t]).Some?
    then [Load(s'.pcs[a.t]).value.1] else []
  }

  lemma StoreOrder(s: State, t: Tid, wakes: Option<Tid>, i: nat)
    requires WellFormed(s) && Enabled(s, Store(t, wakes)) && i < 3
    ensures var s' := StoreStep(s, t, wakes);
            && WellFormed(s') && |s'.pcs| == |s.pcs|
            && s'.queues[i] == s.queues[i] + StoredNow(s, Store(t, wakes), s', i)
  {
    hide Load, WithPhase, WakeUp, AfterStore, Carries;
    var p := s.pcs[t];
    HeldByStorer(p);
    HeldWithPhase(p, Waiting);
    SameLength(s.pcs[t := AfterStore(p)], wakes);
    WakeUpKeepsLoads(s.pcs[t := AfterStore(p)], wakes, t);
  }

  lemma SameLength(pcs: seq<Pc>, wakes: Option<Tid>)
    ensures |WakeUp(pcs, wakes)| == |pcs|
  {
  }

  lemma FetchOrder(s: State, t: Tid, wakes: Option<Tid>, i: nat)
    requires WellFormed(s) && Enabled(s, Fetch(t, wakes)) && i < 3
    ensures var s' := FetchStep(s, t, wakes);
            && WellFormed(s') && |s'.pcs| == |s.pcs|
            && s.queues[i] == FetchedNow(s, Fetch(t, wakes), s', i) + s'.queues[i]
  {
    hide Load, WithPhase, WakeUp, AfterFetch;
    var p := s.pcs[t];
    var j := Fetches(p).value.0;
    HeldWithPhase(p, Waiting);
    HeldByFetcher(p, NO_TOKEN);
    if s.queues[j] != [] {
      var x := s.queues[j][0];
      HeldByFetcher(p, x);
      SameLength(s.pcs[t := AfterFetch(p, x)], wakes);
      WakeUpKeepsLoads(s.pcs[t := AfterFetch(p, x)], wakes, t);
      assert s.queues[j] == [x] + s.queues[j][1..];
    }
  }

  /** A step adds at the end of a queue or takes from its front. */
  lemma FifoStep(s: State, a: Action, i: nat)
    requires WellFormed(s) && Enabled(s, a) && i < 3
    ensures var s' := Next(s, a);
            && WellFormed(s') && |s.pcs| <= |s'.pcs|
            && s.queues[i] + StoredNow(s, a, s', i) == FetchedNow(s, a, s', i) + s'.queues[i]
  {
    hide StoreStep, FetchStep, WithPhase, Load, Produce, Consume;
    match a
    case Store(t, wakes) => StoreOrder(s, t, wakes, i);
    case Fetch(t, wakes) => FetchOrder(s, t, wakes, i);
    case _ =>
  }

  ghost predicate AllWellFormed(ss: seq<State>, acts: seq<Action>) {
    && |ss| == |acts| + 1
    && forall j :: 0 <= j < |acts| ==> Acts(ss[j], acts[j]) ==> acts[j].t < |ss[j + 1].pcs|
  }

  function AllStored(ss: seq<State>, acts: seq<Action>, i: nat, k: nat): seq<Token>
    requires AllWellFormed(ss, acts) && k <= |acts|
  {
    if k == 0 then [] else AllStored(ss, acts, i, k - 1) + StoredNow(ss[k - 1], acts[k - 1], ss[k], i)
  }

  function AllFetched(ss: seq<State>, acts: seq<Action>, i: nat, k: nat): seq<Token>
    requires AllWellFormed(ss, acts) && k <= |acts|
  {
    if k == 0 then [] else AllFetched(ss, acts, i, k - 1) + FetchedNow(ss[k - 1], acts[k - 1], ss[k], i)
  }

  lemma RunWellFormed(ss: seq<State>, acts: seq<Action>)
    requires IsRun(ss, acts)
    ensures AllWellFormed(ss, acts)
  {
    hide Next, Enabled, Initial;
    forall j | 0 <= j < |acts|
      ensures Acts(ss[j], acts[j]) ==> acts[j].t < |ss[j + 1].pcs|
    {
      FifoStep(ss[j], acts[j], 0);
    }
  }

  /** In every run, items leave each queue in the order in which they entered it. */
  lemma {:induction false} QueueIsFifo(ss: seq<State>, acts: seq<Action>, i: nat, k: nat)
    requires IsRun(ss, acts) && i < 3 && k <= |acts|
    ensures AllWellFormed(ss, acts) && |ss[k].queues| == 3
    ensures AllStored(ss, acts, i, k) == AllFetched(ss, acts, i, k) + ss[k].queues[i]
  {
    hide Next, Enabled, StoredNow, FetchedNow, WellFormed, Initial;
    RunWellFormed(ss, acts);
    if k > 0 {
      QueueIsFifo(ss, acts, i, k - 1);
      FifoStep(ss[k - 1], acts[k - 1], i);
      ThreeQueues(ss[k]);
      Moved(AllFetched(ss, acts, i, k - 1), ss[k - 1].queues[i], StoredNow(ss[k - 1], acts[k - 1], ss[k], i),
            FetchedNow(ss[k - 1], acts[k - 1], ss[k], i), ss[k].queues[i]);
    } else {
      InitialQueues(ss[0], i);
    }
  }

  lemma Moved(gone: seq<Token>, was: seq<Token>, stored: seq<Token>, fetched: seq<Token>, now: seq<Token>)
    requires was + stored == fetched + now
    ensures (gone + was) + stored == (gone + fetched) + now
  {
    assert (gone + was) + stored == gone + (was + stored);
    assert (gone + fetched) + now == gone + (fetched + now);
  }

  lemma ThreeQueues(s: State)
    requires WellFormed(s)
    ensures |s.queues| == 3
  {
  }

  lemma InitialQueues(s: State, i: nat)
    requires Initial(s) && i < 3
    ensures |s.queues| == 3 && s.queues[i] == []
  {
  }

  lemma Carried(a: seq<Token>, b: seq<Token>, c: seq<Token>)
    ensures a + (b + c) == (a + b) + c
  {
  }

  function InHand(p: Pc): seq<Token> {
    if Load(p).Some? then [Load(p).value.1] else []
  }

  lemma SameKindLoad(p: Pc, q: Pc)
    requires SameKind(p, q)
    ensures Load(p) == Load(q)
  {
    hide WithPhase, Load;
    if p != q {
      HeldWithPhase(p, Awake);
    }
  }

  lemma RoleHere(s: State, t: Tid)
    requires RolesOk(s) && t < |s.pcs|
    ensures RoleOf(s.pcs[t]) == RoleAt(s.producers, t)
    ensures RoleOf(s.pcs[t]).Writer? <==> t == 1
    ensures RoleOf(s.pcs[t]).Reader? <==> t == 0
  {
  }

  /** Whoever else acts, a thread carries what it carried. */
  lemma OthersCarry(s: State, a: Action, u: Tid)
    requires WellFormed(s) && Shape(s) && Enabled(s, a) && u < |s.pcs| && (Acts(s, a) ==> a.t != u) && (a.Exit? ==> a.t != u)
    ensures WellFormed(Next(s, a)) && u < |Next(s, a).pcs| && Load(Next(s, a).pcs[u]) == Load(s.pcs[u])
  {
    hide WithPhase, Load, Shape, LocalStep, StoreStep, FetchStep, SameKind, Own;
    match a
    case Local(t) => LocalIsThreadStep(s, t); SameKindLoad(s.pcs[u], Next(s, a).pcs[u]);
    case Store(t, wakes) => StoreIsThreadStep(s, t, wakes); SameKindLoad(s.pcs[u], Next(s, a).pcs[u]);
    case Fetch(t, wakes) => FetchIsThreadStep(s, t, wakes); SameKindLoad(s.pcs[u], Next(s, a).pcs[u]);
    case Spurious(t) => HeldWithPhase(s.pcs[t], Awake);
    case _ =>
  }

  /** The writer writes what it carries, or comes to carry what it takes from its queue. */
  lemma WriterStep(s: State, a: Action)
    requires WellFormed(s) && Shape(s) && Enabled(s, a)
    ensures var s' := Next(s, a);
            && WellFormed(s') && |s'.pcs| >= |s.pcs| >= 2
            && s'.written + InHand(s'.pcs[1]) == s.written + InHand(s.pcs[1]) + FetchedNow(s, a, s', 2)
  {
    hide Load, StoreStep, FetchStep, LocalStep, WithPhase, RoleOf;
    var s' := Next(s, a);
    FifoStep(s, a, 2);
    if a.Local? && a.t == 1 {
      RoleHere(s, 1);
      WriterLocal(s);
    } else if a.Fetch? && a.t == 1 {
      RoleHere(s, 1);
      ActorRoles(s.pcs[1]);
      WriterFetch(s, a.wakes);
    } else {
      OthersAct(s, a);
    }
  }

  lemma OthersAct(s: State, a: Action)
    requires WellFormed(s) && Shape(s) && Enabled(s, a) && !((a.Local? || a.Fetch?) && a.t == 1)
    ensures var s' := Next(s, a);
            && WellFormed(s') && |s'.pcs| >= |s.pcs| >= 2
            && s'.written == s.written && Load(s'.pcs[1]) == Load(s.pcs[1]) && FetchedNow(s, a, s', 2) == []
  {
    hide Load, WithPhase, RoleOf, Produce, Consume, WakeUp, AfterStore, AfterFetch, Carries;
    FifoStep(s, a, 2);
    if Acts(s, a) || a.Exit? {
      RoleHere(s, a.t);
      ActorRoles(s.pcs[a.t]);
    }
    OthersCarry(s, a, 1);
  }

  lemma ActorRoles(p: Pc)
    ensures p.WriterWrite? || p.WriterTop? ==> RoleOf(p).Writer?
    ensures p.ConsumerTop? ==> !RoleOf(p).Writer? && !RoleOf(p).Reader?
    ensures p.ReaderTop? ==> RoleOf(p).Reader?
    ensures Stores(p).Some? ==> !RoleOf(p).Writer? && (Stores(p).value.0 == 0 <==> RoleOf(p).Reader?)
    ensures Fetches(p).Some? ==> !RoleOf(p).Reader? && (Fetches(p).value.0 == 2 <==> RoleOf(p).Writer?)
  {
  }

  lemma WriterLocal(s: State)
    requires WellFormed(s) && |s.pcs| >= 2 && RoleOf(s.pcs[1]).Writer? && IsLocal(s.pcs[1])
    ensures var s' := LocalStep(s, 1);
            && WellFormed(s') && |s'.pcs| == |s.pcs|
            && s'.written + InHand(s'.pcs[1]) == s.written + InHand(s.pcs[1])
  {
  }

  lemma WriterFetch(s: State, wakes: Option<Tid>)
    requires WellFormed(s) && |s.pcs| >= 2 && Enabled(s, Fetch(1, wakes)) && Fetches(s.pcs[1]).value.0 == 2
    ensures var s' := FetchStep(s, 1, wakes);
            && WellFormed(s') && |s'.pcs| == |s.pcs| && s'.written == s.written && InHand(s.pcs[1]) == []
            && InHand(s'.pcs[1]) == FetchedNow(s, Fetch(1, wakes), s', 2)
  {
    hide Load, WithPhase, AfterFetch, WakeUp;
    FetchOrder(s, 1, wakes, 2);
    HeldByFetcher(s.pcs[1], NO_TOKEN);
  }

  /** Items are written in the order in which the writer takes them from its queue. */
  lemma {:induction false} WrittenInOrder(ss: seq<State>, acts: seq<Action>, k: nat)
    requires IsRun(ss, acts) && k <= |acts|
    ensures AllWellFormed(ss, acts) && |ss[k].pcs| >= 2
    ensures AllFetched(ss, acts, 2, k) == ss[k].written + InHand(ss[k].pcs[1])
  {
    hide Next, Enabled, FetchedNow, Load, Shape, Inv;
    RunWellFormed(ss, acts);
    if k > 0 {
      WrittenInOrder(ss, acts, k - 1);
      RunShape(ss, acts, k - 1);
      WriterStep(ss[k - 1], acts[k - 1]);
    } else {
      InitialHands(ss[0]);
    }
  }

  lemma RunShape(ss: seq<State>, acts: seq<Action>, k: nat)
    requires IsRun(ss, acts) && k < |ss|
    ensures WellFormed(ss[k]) && Shape(ss[k])
  {
    hide Next, Enabled, Initial, Conserved, QueuesOk, Shape, NoConsumerNoOutput;
    RunKeepsInv(ss, acts, k);
  }

  lemma InitialHands(s: State)
    requires Initial(s)
    ensures |s.pcs| >= 2 && InHand(s.pcs[0]) == InHand(s.pcs[1]) == [] && s.written == [] && s.read == 0
  {
  }

  function InputTokens(input: seq<Item>, n: nat): seq<Token>
    requires n <= |input|
  {
    if n == 0 then [] else InputTokens(input, n - 1) + [Token(n - 1, input[n - 1])]
  }

  /** The reader puts down what it carries, or comes to carry the next line. */
  lemma ReaderStep(s: State, a: Action)
    requires WellFormed(s) && Shape(s) && Enabled(s, a)
    ensures var s' := Next(s, a);
            && WellFormed(s') && |s'.pcs| >= |s.pcs| >= 2 && s'.input == s.input
            && (s'.read == s.read ==> InHand(s.pcs[0]) == StoredNow(s, a, s', 0) + InHand(s'.pcs[0]))
            && (s'.read != s.read ==>
                  && s'.read == s.read + 1 && InHand(s.pcs[0]) == StoredNow(s, a, s', 0) == []
                  && InHand(s'.pcs[0]) == [Token(s.read, s.input[s.read])])
  {
    hide Load, StoreStep, FetchStep, LocalStep, WithPhase, RoleOf;
    FifoStep(s, a, 0);
    if a.Local? && a.t == 0 {
      RoleHere(s, 0);
      ReaderLocal(s);
    } else if a.Store? && a.t == 0 {
      RoleHere(s, 0);
      ActorRoles(s.pcs[0]);
      ReaderStore(s, a.wakes);
    } else {
      OthersRead(s, a);
    }
  }

  lemma ReaderLocal(s: State)
    requires WellFormed(s) && |s.pcs| >= 2 && RoleOf(s.pcs[0]).Reader? && IsLocal(s.pcs[0])
    ensures var s' := LocalStep(s, 0);
            && WellFormed(s') && |s'.pcs| == |s.pcs| && s'.input == s.input && InHand(s.pcs[0]) == []
            && (s'.read == s.read ==> InHand(s'.pcs[0]) == [])
            && (s'.read != s.read ==> s'.read == s.read + 1 && InHand(s'.pcs[0]) == [Token(s.read, s.input[s.read])])
  {
  }

  lemma ReaderStore(s: State, wakes: Option<Tid>)
    requires WellFormed(s) && |s.pcs| >= 2 && Enabled(s, Store(0, wakes)) && Stores(s.pcs[0]).value.0 == 0
    ensures var s' := StoreStep(s, 0, wakes);
            && WellFormed(s') && |s'.pcs| == |s.pcs| && s'.read == s.read && s'.input == s.input
            && InHand(s.pcs[0]) == StoredNow(s, Store(0, wakes), s', 0) + InHand(s'.pcs[0])
  {
    hide Load, WithPhase, AfterStore, WakeUp, Carries;
    StoreOrder(s, 0, wakes, 0);
    HeldByStorer(s.pcs[0]);
    HeldWithPhase(s.pcs[0], Waiting);
    SameLength(s.pcs[0 := AfterStore(s.pcs[0])], wakes);
    WakeUpKeepsLoads(s.pcs[0 := AfterStore(s.pcs[0])], wakes, 0);
  }

  lemma OthersRead(s: State, a: Action)
    requires WellFormed(s) && Shape(s) && Enabled(s, a) && !((a.Local? || a.Store?) && a.t == 0)
    ensures var s' := Next(s, a);
            && WellFormed(s') && |s'.pcs| >= |s.pcs| >= 2 && s'.read == s.read && s'.input == s.input
            && Load(s'.pcs[0]) == Load(s.pcs[0]) && StoredNow(s, a, s', 0) == []
  {
    hide Load, WithPhase, RoleOf, Produce, Consume, WakeUp, AfterStore, AfterFetch, Carries;
    FifoStep(s, a, 0);
    if Acts(s, a) || a.Exit? {
      RoleHere(s, a.t);
      ActorRoles(s.pcs[a.t]);
    }
    OthersCarry(s, a, 0);
  }

  /** The lines enter the input queue in the order of the file. */
  lemma {:induction false} ReadInOrder(ss: seq<State>, acts: seq<Action>, k: nat)
    requires IsRun(ss, acts) && k <= |acts|
    ensures AllWellFormed(ss, acts) && |ss[k].pcs| >= 2 && WellFormed(ss[k])
    ensures AllStored(ss, acts, 0, k) + InHand(ss[k].pcs[0]) == InputTokens(ss[k].input, ss[k].read)
  {
    hide Next, Enabled, StoredNow, InHand, Shape, Inv, Initial;
    RunWellFormed(ss, acts);
    RunShape(ss, acts, k);
    if k > 0 {
      ReadInOrder(ss, acts, k - 1);
      RunShape(ss, acts, k - 1);
      ReaderStep(ss[k - 1], acts[k - 1]);
      Carried(AllStored(ss, acts, 0, k - 1), StoredNow(ss[k - 1], acts[k - 1], ss[k], 0), InHand(ss[k].pcs[0]));
    } else {
      InitialHands(ss[0]);
    }
  }

  /** Which sizes of the worker queue make the controller act: more than 80 percent of its 200 slots, less than 20. */
  lemma ScalesWhen(s: State, observed: int)
    requires WellFormed(s)
    ensures Enabled(s, ScaleUp(observed)) <==> 100 * observed > 80 * 200
    ensures Enabled(s, ScaleDown(observed)) <==> 100 * observed < 20 * 200 && |s.pool| > 1
  {
  }

  /** A controller that sees the worker queue above the high threshold creates one consumer, which can start at once. */
  lemma HiresOne(s: State, observed: int)
    requires WellFormed(s) && Shape(s) && Enabled(s, ScaleUp(observed))
    ensures var s' := Next(s, ScaleUp(observed));
            && WellFormed(s') && s'.pcs == s.pcs + [ConsumerTop] && s'.cancelled == s.cancelled
            && |s.pcs| !in s.pool && s'.pool == s.pool + [|s.pcs|] && CanMove(s', |s.pcs|)
  {
  }

  /** The controller cancels the consumer that was created last of those in its vector. */
  lemma CancelsTheNewest(s: State, observed: int)
    requires Shape(s) && WellFormed(s) && Enabled(s, ScaleDown(observed))
    ensures var s' := Next(s, ScaleDown(observed));
            exists t: Tid ::
              && t in s.pool && t !in s.cancelled && s'.cancelled == s.cancelled + {t}
              && (forall u :: u in s.pool ==> u <= t) && (forall u :: u in s'.pool <==> u in s.pool && u != t)
  {
    var n := |s.pool| - 1;
    var t := s.pool[n];
    assert s.pool == s.pool[..n] + [t];
  }

  // ---------- No deadlock ----------

  /** Thread `t` can do more than go (back) to sleep. */
  predicate CanMove(s: State, t: Tid)
    requires WellFormed(s)
  {
    && t < |s.pcs|
    && var p := s.pcs[t];
       || IsLocal(p)
       || (Stores(p).Some? && !IsWaiting(p) && |s.queues[Stores(p).value.0]| < s.caps[Stores(p).value.0])
       || (Fetches(p).Some? && !IsWaiting(p) && s.queues[Fetches(p).value.0] != [])
  }

  ghost predicate Stuck(s: State)
    requires WellFormed(s)
  {
    forall t: Tid :: !CanMove(s, t)
  }

  /** If a storer cannot go on and nobody else can, its queue is full. */
  lemma FullIfStuck(s: State, i: nat, t: Tid)
    requires WellFormed(s) && i < 3 && QueueOk(s, i) && Stuck(s)
    requires t < |s.pcs| && Stores(s.pcs[t]).Some? && Stores(s.pcs[t]).value.0 == i
    ensures |s.queues[i]| == s.caps[i] > 0
  {
    assert !CanMove(s, t);
    if |s.queues[i]| < s.caps[i] {
      assert StoreWaits(i)(s.pcs[t]);
      CountMember(s.pcs, StoreWaits(i), t);
      forall u: Tid | u < |s.pcs|
        ensures !StoreAwake(i)(s.pcs[u])
      {
        assert !CanMove(s, u);
      }
      CountNone(s.pcs, StoreAwake(i));
    }
  }

  lemma EmptyIfStuck(s: State, i: nat, t: Tid)
    requires WellFormed(s) && i < 3 && QueueOk(s, i) && Stuck(s)
    requires t < |s.pcs| && Fetches(s.pcs[t]).Some? && Fetches(s.pcs[t]).value.0 == i
    ensures s.queues[i] == [] && s.caps[i] > 0
  {
    assert !CanMove(s, t);
    if s.queues[i] != [] {
      assert FetchWaits(i)(s.pcs[t]);
      CountMember(s.pcs, FetchWaits(i), t);
      forall u: Tid | u < |s.pcs|
        ensures !FetchAwake(i)(s.pcs[u])
      {
        assert !CanMove(s, u);
      }
      CountNone(s.pcs, FetchAwake(i));
    }
  }

  /** In a stuck state before the end, the writer finds its queue empty. */
  lemma WriterStarves(s: State)
    requires Inv(s) && Stuck(s) && |s.written| < s.n
    ensures s.queues[2] == [] && s.caps[2] > 0
  {
    hide QueueOk, Conserved;
    assert !CanMove(s, 1);
    assert RoleOf(s.pcs[1]) == RoleAt(s.producers, 1);
    EmptyIfStuck(s, 2, 1);
  }

  lemma ConsumerStarves(s: State)
    requires Inv(s) && Stuck(s) && s.queues[2] == [] && s.pool != []
    ensures s.queues[1] == [] && s.caps[1] > 0
  {
    hide QueueOk, Conserved;
    var c := s.pool[0];
    assert !CanMove(s, c);
    assert RoleOf(s.pcs[c]) == RoleAt(s.producers, c);
    if s.pcs[c].ConsumerPut? {
      FullIfStuck(s, 2, c);
    }
    EmptyIfStuck(s, 1, c);
  }

  /** A worker queue with room left means that the input has run out. */
  lemma InputExhausted(s: State)
    requires Inv(s) && Stuck(s) && s.producers > 0 && |s.queues[1]| < s.caps[1]
    ensures s.queues[0] == [] && s.read == s.n
    ensures forall t: Tid :: t < |s.pcs| ==> Load(s.pcs[t]).None? || s.pcs[t].ConsumerPut?
  {
    hide QueueOk, Conserved;
    assert !CanMove(s, 2) && !CanMove(s, 0);
    assert RoleOf(s.pcs[2]) == RoleAt(s.producers, 2) && RoleOf(s.pcs[0]) == RoleAt(s.producers, 0);
    if s.pcs[2].ProducerPut? {
      FullIfStuck(s, 1, 2);
    }
    EmptyIfStuck(s, 0, 2);
    if s.pcs[0].ReaderPut? {
      FullIfStuck(s, 0, 0);
    }
    forall t: Tid | t < |s.pcs|
      ensures Load(s.pcs[t]).None? || s.pcs[t].ConsumerPut?
    {
      assert !CanMove(s, t);
      if Stores(s.pcs[t]).Some? {
        FullIfStuck(s, Stores(s.pcs[t]).value.0, t);
      }
    }
  }

  /** With one consumer in the controller's vector, the pipeline never deadlocks before n items are written. */
  lemma NeverStuck(s: State)
    requires Inv(s) && s.producers > 0 && s.pool != [] && |s.written| < s.n
    ensures exists t: Tid :: CanMove(s, t)
  {
    hide Conserved, Shape, QueueOk, CanMove, NoConsumerNoOutput;
    if Stuck(s) {
      WriterStarves(s);
      ConsumerStarves(s);
      InputExhausted(s);
      forall t: Tid | t < |s.pcs|
        ensures Load(s.pcs[t]).None?
      {
        if s.pcs[t].ConsumerPut? {
          FullIfStuck(s, 2, t);
        }
      }
      NothingHeld(s.pcs);
      Balance(s);
      assert false;
    }
  }

  /** Before the first consumer is created, everything read piles up in the worker queue. */
  lemma StuckWithoutConsumers(s: State)
    requires Inv(s) && s.producers > 0 && s.pool == [] && |s.written| < s.n && Stuck(s)
    ensures |s.queues[1]| == s.caps[1] || |s.queues[1]| == s.n
  {
    hide Conserved, CanMove, Tallies;
    if |s.queues[1]| < s.caps[1] {
      InputExhausted(s);
      forall t: Tid | t < |s.pcs|
        ensures Load(s.pcs[t]).None?
      {
        assert RoleOf(s.pcs[t]) == RoleAt(s.producers, t);
      }
      NothingHeld(s.pcs);
      Balance(s);
    }
  }

  // ---------- When the pipeline delivers ----------

  /** The controller sees the true size of the worker queue. */
  ghost predicate Honest(s: State, a: Action)
    requires WellFormed(s)
  {
    a.ScaleUp? ==> a.observed == |s.queues[1]|
  }

  ghost predicate IsHonestRun(ss: seq<State>, acts: seq<Action>) {
    IsRun(ss, acts) && forall i :: 0 <= i < |acts| ==> WellFormed(ss[i]) && Honest(ss[i], acts[i])
  }

  lemma {:induction false} PoolStaysEmpty(ss: seq<State>, acts: seq<Action>, k: nat)
    requires IsHonestRun(ss, acts) && k < |ss| && ss[0].n <= HIGH
    ensures ss[k].pool == []
  {
    hide Inv, Next, Enabled, WellFormed, Honest;
    if k > 0 {
      PoolStaysEmpty(ss, acts, k - 1);
      RunKeepsInv(ss, acts, k - 1);
      PoolStep(ss[k - 1], acts[k - 1]);
    } else {
      assert Initial(ss[0]);
    }
  }

  lemma PoolStep(s: State, a: Action)
    requires Inv(s) && Enabled(s, a) && Honest(s, a) && s.pool == [] && s.n <= HIGH
    ensures Next(s, a).pool == []
  {
    hide Conserved, QueuesOk, Shape, NoConsumerNoOutput, Next;
    Balance(s);
    NoScaling(s, a);
    KeepsPool(s, a);
  }

  lemma NoScaling(s: State, a: Action)
    requires WellFormed(s) && Honest(s, a) && |s.queues[1]| <= HIGH && s.pool == []
    ensures Enabled(s, a) ==> !a.ScaleUp? && !a.ScaleDown?
  {
  }

  lemma KeepsPool(s: State, a: Action)
    requires WellFormed(s) && Enabled(s, a) && !a.ScaleUp? && !a.ScaleDown?
    ensures Next(s, a).pool == s.pool
  {
    hide Produce, Consume, WithPhase, WakeUp, AfterStore, AfterFetch, Carries;
  }

  /** The pool starts empty and only a worker queue above the high threshold fills it. So with at most
      `HIGH` items to process nothing is ever written; with more, there is always a way on until the end. */
  lemma DeliversOnlyAboveHigh(ss: seq<State>, acts: seq<Action>, k: nat)
    requires IsHonestRun(ss, acts) && k < |ss| && ss[0].producers > 0 && ss[0].caps[1] > HIGH
    ensures Inv(ss[k])
    ensures ss[0].n <= HIGH ==> ss[k].written == [] && ss[k].pool == []
    ensures ss[0].n > HIGH && |ss[k].written| < ss[k].n ==>
              (exists t: Tid :: CanMove(ss[k], t)) || Enabled(ss[k], ScaleUp(|ss[k].queues[1]|))
  {
    hide CanMove, Conserved, QueueOk, Shape, Next, Initial;
    RunKeepsInv(ss, acts, k);
    var s := ss[k];
    if ss[0].n <= HIGH {
      PoolStaysEmpty(ss, acts, k);
    } else if |s.written| < s.n && Stuck(s) {
      if s.pool != [] {
        NeverStuck(s);
      } else {
        StuckWithoutConsumers(s);
      }
    }
  }

  // ---------- How many moves a run can take ----------

  function Weight(p: Pc): nat {
    match p
    case ReaderTop => 1
    case ReaderPut(_, _) => 12
    case ProducerWork(_) => 9
    case ProducerPut(_, _) => 8
    case ConsumerTop => 1
    case ConsumerWork(_) => 6
    case ConsumerPut(_, _) => 5
    case WriterTop => 1
    case WriterWrite(_) => 2
    case _ => 0
  }

  function TotalWeight(pcs: seq<Pc>): nat {
    if pcs == [] then 0 else TotalWeight(pcs[..|pcs| - 1]) + Weight(pcs[|pcs| - 1])
  }

  lemma {:induction false} WeightUpdate(pcs: seq<Pc>, t: nat, p: Pc)
    requires t < |pcs|
    ensures TotalWeight(pcs[t := p]) + Weight(pcs[t]) == TotalWeight(pcs) + Weight(p)
  {
    hide Weight;
    var n := |pcs| - 1;
    if t == n {
      assert pcs[t := p][..n] == pcs[..n];
    } else {
      assert pcs[t := p][..n] == pcs[..n][t := p] && pcs[t := p][n] == pcs[n];
      WeightUpdate(pcs[..n], t, p);
    }
  }

  /** What is left to do: unread and queued items weigh more than the workers they will pass through. */
  function Work(s: State): nat
    requires WellFormed(s)
  {
    12 * (s.n - s.read) + 10 * |s.queues[0]| + 7 * |s.queues[1]| + 3 * |s.queues[2]| + TotalWeight(s.pcs)
  }

  lemma WeightWithPhase(p: Pc, ph: Phase)
    requires Fetches(p).Some? || Stores(p).Some?
    ensures Weight(WithPhase(p, ph)) == Weight(p)
  {
  }

  lemma WakeUpKeepsWeight(pcs: seq<Pc>, wakes: Option<Tid>)
    ensures TotalWeight(WakeUp(pcs, wakes)) == TotalWeight(pcs)
  {
    hide Weight, WithPhase;
    match wakes
    case None =>
    case Some(u) =>
      if u < |pcs| && IsWaiting(pcs[u]) {
        WeightUpdate(pcs, u, WithPhase(pcs[u], Awake));
        WeightWithPhase(pcs[u], Awake);
      }
  }

  /** A step of a thread that can move, or the exit of a cancelled consumer. */
  predicate IsMove(s: State, a: Action)
    requires WellFormed(s)
  {
    match a
    case Local(t) => true
    case Exit(t) => true
    case Store(t, _) => CanMove(s, t)
    case Fetch(t, _) => CanMove(s, t)
    case _ => false
  }

  /** `signal` always has a choice. */
  lemma SignalHasChoice(pcs: seq<Pc>, waits: Pc -> bool) returns (wakes: Option<Tid>)
    ensures SignalOk(pcs, waits, wakes)
  {
    if Count(pcs, waits) == 0 {
      wakes := None;
    } else {
      var u := CountFinds(pcs, waits);
      wakes := Some(u);
    }
  }

  /** A thread that can move has a step to take that is a move. */
  lemma CanMoveMeansEnabled(s: State, t: Tid) returns (a: Action)
    requires WellFormed(s) && CanMove(s, t)
    ensures Enabled(s, a) && Acts(s, a) && a.t == t && IsMove(s, a)
  {
    var p := s.pcs[t];
    if IsLocal(p) {
      a := Local(t);
    } else if Stores(p).Some? {
      var wakes := SignalHasChoice(s.pcs, FetchWaits(Stores(p).value.0));
      a := Store(t, wakes);
    } else {
      var wakes := SignalHasChoice(s.pcs, StoreWaits(Fetches(p).value.0));
      a := Fetch(t, wakes);
    }
  }

  lemma LocalWork(s: State, t: Tid)
    requires WellFormed(s) && t < |s.pcs| && IsLocal(s.pcs[t])
    ensures WellFormed(LocalStep(s, t)) && Work(LocalStep(s, t)) < Work(s)
  {
    hide Produce, Consume;
    WeightUpdate(s.pcs, t, LocalStep(s, t).pcs[t]);
  }

  lemma StoreWork(s: State, t: Tid, wakes: Option<Tid>)
    requires WellFormed(s) && t < |s.pcs| && Stores(s.pcs[t]).Some? && !IsWaiting(s.pcs[t])
    ensures WellFormed(StoreStep(s, t, wakes))
    ensures Work(StoreStep(s, t, wakes)) <= Work(s) - (if CanMove(s, t) then 1 else 0)
  {
    hide WithPhase, WakeUp;
    var p := s.pcs[t];
    WeightUpdate(s.pcs, t, WithPhase(p, Waiting));
    WeightWithPhase(p, Waiting);
    WeightUpdate(s.pcs, t, AfterStore(p));
    WakeUpKeepsWeight(s.pcs[t := AfterStore(p)], wakes);
  }

  lemma FetchWork(s: State, t: Tid, wakes: Option<Tid>)
    requires WellFormed(s) && t < |s.pcs| && Fetches(s.pcs[t]).Some? && !IsWaiting(s.pcs[t])
    ensures WellFormed(FetchStep(s, t, wakes))
    ensures Work(FetchStep(s, t, wakes)) <= Work(s) - (if CanMove(s, t) then 1 else 0)
  {
    hide WithPhase, WakeUp;
    var p := s.pcs[t];
    WeightUpdate(s.pcs, t, WithPhase(p, Waiting));
    WeightWithPhase(p, Waiting);
    if s.queues[Fetches(p).value.0] != [] {
      var q := AfterFetch(p, s.queues[Fetches(p).value.0][0]);
      WeightUpdate(s.pcs, t, q);
      WakeUpKeepsWeight(s.pcs[t := q], wakes);
    }
  }

  lemma NextWork(s: State, a: Action)
    requires WellFormed(s) && Enabled(s, a)
    ensures WellFormed(Next(s, a))
    ensures Work(Next(s, a)) + (if IsMove(s, a) then 1 else 0) <= Work(s) + (if a.ScaleUp? then 1 else 0)
  {
    hide Work, StoreStep, FetchStep, LocalStep, CanMove;
    match a
    case Local(t) => LocalWork(s, t);
    case Store(t, wakes) => StoreWork(s, t, wakes);
    case Fetch(t, wakes) => FetchWork(s, t, wakes);
    case _ => RestWork(s, a);
  }

  lemma RestWork(s: State, a: Action)
    requires WellFormed(s) && Enabled(s, a) && !a.Local? && !a.Store? && !a.Fetch?
    ensures WellFormed(Next(s, a))
    ensures Work(Next(s, a)) + (if IsMove(s, a) then 1 else 0) <= Work(s) + (if a.ScaleUp? then 1 else 0)
  {
    hide WithPhase, TotalWeight;
    match a
    case Exit(t) => WeightUpdate(s.pcs, t, ConsumerDone);
    case Spurious(t) =>
      WeightUpdate(s.pcs, t, WithPhase(s.pcs[t], Awake));
      WeightWithPhase(s.pcs[t], Awake);
    case ScaleUp(_) => NewcomerWeight(s.pcs);
    case _ =>
  }

  lemma NewcomerWeight(pcs: seq<Pc>)
    ensures TotalWeight(pcs + [ConsumerTop]) == TotalWeight(pcs) + 1
  {
    assert (pcs + [ConsumerTop])[..|pcs|] == pcs;
  }

  ghost function Moves(ss: seq<State>, acts: seq<Action>, k: nat): nat
    requires k <= |acts| < |ss| && forall i :: 0 <= i < k ==> WellFormed(ss[i])
  {
    if k == 0 then 0 else Moves(ss, acts, k - 1) + (if IsMove(ss[k - 1], acts[k - 1]) then 1 else 0)
  }

  function ScaleUps(acts: seq<Action>, k: nat): nat
    requires k <= |acts|
  {
    if k == 0 then 0 else ScaleUps(acts, k - 1) + (if acts[k - 1].ScaleUp? then 1 else 0)
  }

  lemma {:induction false} WorkIsUsedUp(ss: seq<State>, acts: seq<Action>, k: nat)
    requires IsRun(ss, acts) && k <= |acts|
    ensures forall i :: 0 <= i <= k ==> WellFormed(ss[i])
    ensures Work(ss[k]) + Moves(ss, acts, k) <= Work(ss[0]) + ScaleUps(acts, k)
  {
    hide Work, Next, Initial, WellFormed, Enabled, IsMove;
    if k > 0 {
      WorkIsUsedUp(ss, acts, k - 1);
      NextWork(ss[k - 1], acts[k - 1]);
    } else {
      assert WellFormed(ss[0]) by {
        InitialInv(ss[0]);
      }
    }
  }

  lemma {:induction false} IdleWeight(pcs: seq<Pc>)
    requires forall t: Tid :: t < |pcs| ==> pcs[t] == ProducerGet(Trying)
    ensures TotalWeight(pcs) == 0
  {
    if pcs != [] {
      IdleWeight(pcs[..|pcs| - 1]);
    }
  }

  lemma {:induction false} WeightOfConcat(a: seq<Pc>, b: seq<Pc>)
    ensures TotalWeight(a + b) == TotalWeight(a) + TotalWeight(b)
  {
    if b == [] {
      assert a + b == a;
    } else {
      assert (a + b)[..|a + b| - 1] == a + b[..|b| - 1];
      WeightOfConcat(a, b[..|b| - 1]);
    }
  }

  /** No schedule moves forever: a run has at most 12 n + 2 moves, and one more per consumer created. */
  lemma MovesAreBounded(ss: seq<State>, acts: seq<Action>)
    requires IsRun(ss, acts)
    ensures forall i :: 0 <= i < |acts| ==> WellFormed(ss[i])
    ensures Moves(ss, acts, |acts|) <= 12 * ss[0].n + 2 + ScaleUps(acts, |acts|)
  {
    hide Next;
    WorkIsUsedUp(ss, acts, |acts|);
    var idle := seq(ss[0].producers, _ => ProducerGet(Trying));
    IdleWeight(idle);
    WeightOfConcat([ReaderTop, WriterTop], idle);
    assert [ReaderTop, WriterTop][..1] == [ReaderTop];
  }
}
