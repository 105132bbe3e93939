/** The loops of the pipeline's threads (reader.hpp, producer.hpp, consumer.hpp, writer.hpp and
    consumer_controller.hpp of NTHU-OS-Pthreads) over the ring buffers. A pass is one round of a loop
    that finds an item, or room, where it needs one; waiting for them belongs to the step system. The
    reader's and the writer's whole loops run against a schedule: what the threads on the other side of
    the queue do to it before each round. */
module Workers {
  import opened Transformers
  import opened TSQueues

  predicate HasRoom(q: TSQueue<Item>)
    reads q
  {
    q.size < q.bufferSize
  }

  // ---------- What the other threads do to a queue between two rounds ----------

  function Total(amounts: nat -> nat, k: nat): nat {
    if k == 0 then 0 else Total(amounts, k - 1) + amounts(k - 1)
  }

  function Joined(parts: nat -> seq<Item>, k: nat): seq<Item> {
    if k == 0 then [] else Joined(parts, k - 1) + parts(k - 1)
  }

  /** In round `k`, no more was taken out than was put in, and the wait for room has ended. */
  predicate RoomInTime(size: nat, bufferSize: nat, taken: nat -> nat, k: nat) {
    0 <= size + k - Total(taken, k + 1) < bufferSize
  }

  /** In round `k`, no more was put in than there was room for, and the wait for an item has ended. */
  predicate ItemInTime(size: nat, bufferSize: nat, added: nat -> seq<Item>, k: nat) {
    0 < size + |Joined(added, k + 1)| - k <= bufferSize
  }

  method TakenByOthers(q: TSQueue<Item>, m: nat)
    requires q.Valid() && m <= q.size
    modifies q
    ensures q.Valid() && q.Contents() == old(q.Contents())[m..]
  {
    for i := 0 to m
      invariant q.Valid() && q.Contents() == old(q.Contents())[i..]
    {
      ghost var was := q.Contents();
      var element := q.Dequeue();
      assert q.Contents() == was[1..];
    }
  }

  method AddedByOthers(q: TSQueue<Item>, items: seq<Item>)
    requires q.Valid() && q.size + |items| <= q.bufferSize
    modifies q, q.buffer
    ensures q.Valid() && q.Contents() == old(q.Contents()) + items
  {
    for i := 0 to |items|
      invariant q.Valid() && q.Contents() == old(q.Contents()) + items[..i]
    {
      q.Enqueue(items[i]);
      assert items[..i] + [items[i]] == items[..i + 1];
    }
  }

  /** After `k` rounds of the reader over a queue that held `q`. */
  ghost predicate ReaderAt(q: seq<Item>, lines: seq<Item>, taken: nat -> nat, k: nat, contents: seq<Item>) {
    && k <= |lines| && Total(taken, k) <= |q| + k
    && contents == (q + lines[..k])[Total(taken, k)..]
  }

  lemma ReaderHasRoom(q: seq<Item>, lines: seq<Item>, bufferSize: nat, taken: nat -> nat, k: nat, contents: seq<Item>)
    requires ReaderAt(q, lines, taken, k, contents) && RoomInTime(|q|, bufferSize, taken, k)
    ensures taken(k) <= |contents| && |contents| - taken(k) < bufferSize
  {
  }

  lemma ReaderRound(q: seq<Item>, lines: seq<Item>, taken: nat -> nat, k: nat, contents: seq<Item>)
    requires ReaderAt(q, lines, taken, k, contents) && k < |lines| && taken(k) <= |contents|
    ensures ReaderAt(q, lines, taken, k + 1, contents[taken(k)..] + [lines[k]])
  {
    assert q + lines[..k + 1] == q + lines[..k] + [lines[k]];
    Slide(q + lines[..k], Total(taken, k), taken(k), lines[k]);
  }

  lemma ReaderStarts(q: seq<Item>, lines: seq<Item>, taken: nat -> nat)
    ensures ReaderAt(q, lines, taken, 0, q)
  {
    assert (q + lines[..0])[0..] == q;
  }

  lemma ReaderEnds(q: seq<Item>, lines: seq<Item>, taken: nat -> nat, k: nat, contents: seq<Item>)
    requires ReaderAt(q, lines, taken, k, contents)
    ensures k <= |lines| && Total(taken, k) <= |q| + k && contents == (q + lines[..k])[Total(taken, k)..]
  {
  }

  lemma Slide(q: seq<Item>, gone: nat, now: nat, x: Item)
    requires gone + now <= |q|
    ensures q[gone..][now..] + [x] == (q + [x])[gone + now..]
  {
  }

  /** After `k` rounds of the writer over a queue that held `q`. */
  ghost predicate WriterAt(q: seq<Item>, added: nat -> seq<Item>, k: nat, written: seq<Item>, contents: seq<Item>) {
    |written| == k && written + contents == q + Joined(added, k)
  }

  lemma WriterStarts(q: seq<Item>, added: nat -> seq<Item>)
    ensures WriterAt(q, added, 0, [], q)
  {
  }

  lemma WriterEnds(q: seq<Item>, added: nat -> seq<Item>, k: nat, before: seq<Item>, written: seq<Item>, contents: seq<Item>)
    requires WriterAt(q, added, k, written, contents)
    ensures |written| == k && before + written + contents == before + q + Joined(added, k)
  {
    assert before + written + contents == before + (written + contents);
  }

  lemma WriterHasItem(q: seq<Item>, bufferSize: nat, added: nat -> seq<Item>, k: nat, written: seq<Item>, contents: seq<Item>)
    requires WriterAt(q, added, k, written, contents) && ItemInTime(|q|, bufferSize, added, k)
    ensures 0 < |contents| + |added(k)| <= bufferSize
  {
    assert |written + contents| == |q + Joined(added, k)|;
  }

  lemma WriterRound(q: seq<Item>, added: nat -> seq<Item>, k: nat, written: seq<Item>, contents: seq<Item>, x: Item, rest: seq<Item>)
    requires WriterAt(q, added, k, written, contents) && contents + added(k) == [x] + rest
    ensures WriterAt(q, added, k + 1, written + [x], rest)
  {
    calc {
      written + [x] + rest;
      written + ([x] + rest);
      written + (contents + added(k));
      (written + contents) + added(k);
      q + (Joined(added, k) + added(k));
    }
  }

  // ---------- The loops ----------

  class Reader {
    var expectedLines: int
    var lines: seq<Item>       // what is left of the input file
    const inputQueue: TSQueue<Item>

    constructor (expectedLines: int, lines: seq<Item>, inputQueue: TSQueue<Item>)
      ensures this.expectedLines == expectedLines && this.lines == lines && this.inputQueue == inputQueue
    {
      this.expectedLines, this.lines, this.inputQueue := expectedLines, lines, inputQueue;
    }

    /** Puts exactly the expected lines into the queue, in order, whatever is taken out meanwhile;
        the counter ends at -1. Before round `k` the producers take out `taken(k)` items. */
    method Process(taken: nat -> nat)
      requires 0 <= expectedLines <= |lines| && inputQueue.Valid()
      requires forall k: nat :: k < expectedLines ==> RoomInTime(inputQueue.size, inputQueue.bufferSize, taken, k)
      modifies this, inputQueue, inputQueue.buffer
      ensures inputQueue.Valid()
      ensures Total(taken, old(expectedLines)) <= old(inputQueue.size) + old(expectedLines)
      ensures inputQueue.Contents()
           == (old(inputQueue.Contents()) + old(lines)[..old(expectedLines)])[Total(taken, old(expectedLines))..]
      ensures lines == old(lines)[old(expectedLines)..] && expectedLines == -1
    {
      hide ReaderAt, RoomInTime, Total;
      ghost var n, all, q := expectedLines, lines, inputQueue.Contents();
      ReaderStarts(q, all, taken);
      var k := 0;
      var more := expectedLines != 0;
      expectedLines := expectedLines - 1;
      while more
        invariant inputQueue.Valid() && -1 <= expectedLines < n <= |all| && more == (expectedLines >= 0)
        invariant 0 <= k <= n && k == if more then n - expectedLines - 1 else n
        invariant lines == all[k..] && ReaderAt(q, all, taken, k, inputQueue.Contents())
        decreases expectedLines
      {
        ghost var contents := inputQueue.Contents();
        ReaderHasRoom(q, all, inputQueue.bufferSize, taken, k, contents);
        TakenByOthers(inputQueue, taken(k));
        var item := lines[0];
        lines := lines[1..];
        inputQueue.Enqueue(item);
        ReaderRound(q, all, taken, k, contents);
        k := k + 1;
        more := expectedLines != 0;
        expectedLines := expectedLines - 1;
      }
      ReaderEnds(q, all, taken, n, inputQueue.Contents());
    }
  }

  class Producer {
    const inputQueue: TSQueue<Item>
    const workerQueue: TSQueue<Item>

    constructor (inputQueue: TSQueue<Item>, workerQueue: TSQueue<Item>)
      ensures this.inputQueue == inputQueue && this.workerQueue == workerQueue
    {
      this.inputQueue, this.workerQueue := inputQueue, workerQueue;
    }

    /** Takes the first item of its input queue, transformed, to the end of the worker queue. */
    method Pass()
      requires inputQueue.Valid() && workerQueue.Valid()
      requires inputQueue != workerQueue && inputQueue.buffer != workerQueue.buffer
      requires inputQueue.size > 0 && HasRoom(workerQueue) && inputQueue.Contents()[0].Valid()
      modifies inputQueue, workerQueue, workerQueue.buffer
      ensures inputQueue.Valid() && workerQueue.Valid()
      ensures inputQueue.Contents() == old(inputQueue.Contents())[1..]
      ensures workerQueue.Contents() == old(workerQueue.Contents()) + [Produce(old(inputQueue.Contents())[0])]
    {
      hide Produce;
      var item := inputQueue.Dequeue();
      var val := ProducerTransform(item.opcode, item.val);
      item := item.(val := val);
      workerQueue.Enqueue(item);
    }
  }

  class Consumer {
    const workerQueue: TSQueue<Item>
    const outputQueue: TSQueue<Item>
    var isCancel: bool

    constructor (workerQueue: TSQueue<Item>, outputQueue: TSQueue<Item>)
      ensures this.workerQueue == workerQueue && this.outputQueue == outputQueue && !isCancel
    {
      this.workerQueue, this.outputQueue, isCancel := workerQueue, outputQueue, false;
    }

    /** `cancel`, when `pthread_cancel` succeeds. It does not touch a queue. */
    method Cancel()
      modifies this
      ensures isCancel
    {
      isCancel := true;
    }

    /** One test of the loop condition and, unless cancelled by then, one whole item. */
    method Pass() returns (more: bool)
      requires workerQueue.Valid() && outputQueue.Valid()
      requires workerQueue != outputQueue && workerQueue.buffer != outputQueue.buffer
      requires !isCancel ==> workerQueue.size > 0 && HasRoom(outputQueue) && workerQueue.Contents()[0].Valid()
      modifies workerQueue, outputQueue, outputQueue.buffer
      ensures workerQueue.Valid() && outputQueue.Valid() && more == !isCancel
      ensures workerQueue.Contents() == if more then old(workerQueue.Contents())[1..] else old(workerQueue.Contents())
      ensures outputQueue.Contents() == old(outputQueue.Contents())
                                        + if more then [Consume(old(workerQueue.Contents())[0])] else []
    {
      hide Consume;
      more := !isCancel;
      if more {
        var item := workerQueue.Dequeue();
        var val := ConsumerTransform(item.opcode, item.val);
        item := item.(val := val);
        outputQueue.Enqueue(item);
      }
    }
  }

  class Writer {
    var expectedLines: int
    var written: seq<Item>
    const outputQueue: TSQueue<Item>

    constructor (expectedLines: int, outputQueue: TSQueue<Item>)
      ensures this.expectedLines == expectedLines && written == [] && this.outputQueue == outputQueue
    {
      this.expectedLines, written, this.outputQueue := expectedLines, [], outputQueue;
    }

    /** Writes exactly the expected number of items, in the order of the queue, whatever is added
        meanwhile: before round `k` the consumers put in the items `added(k)`. */
    method Process(added: nat -> seq<Item>)
      requires 0 <= expectedLines && outputQueue.Valid()
      requires forall k: nat :: k < expectedLines ==> ItemInTime(outputQueue.size, outputQueue.bufferSize, added, k)
      modifies this, outputQueue, outputQueue.buffer
      ensures outputQueue.Valid() && |written| == |old(written)| + old(expectedLines) && expectedLines == -1
      ensures written + outputQueue.Contents()
           == old(written) + old(outputQueue.Contents()) + Joined(added, old(expectedLines))
    {
      hide WriterAt, ItemInTime, Joined;
      ghost var n, w, mine, q: seq<Item> := expectedLines, written, [], outputQueue.Contents();
      WriterStarts(q, added);
      var k := 0;
      var more := expectedLines != 0;
      expectedLines := expectedLines - 1;
      while more
        invariant outputQueue.Valid() && -1 <= expectedLines < n && more == (expectedLines >= 0)
        invariant 0 <= k <= n && k == if more then n - expectedLines - 1 else n
        invariant written == w + mine && WriterAt(q, added, k, mine, outputQueue.Contents())
        decreases expectedLines
      {
        ghost var contents := outputQueue.Contents();
        WriterHasItem(q, outputQueue.bufferSize, added, k, mine, contents);
        AddedByOthers(outputQueue, added(k));
        var item := outputQueue.Dequeue();
        written := written + [item];
        WriterRound(q, added, k, mine, contents, item, outputQueue.Contents());
        mine := mine + [item];
        k := k + 1;
        more := expectedLines != 0;
        expectedLines := expectedLines - 1;
      }
      WriterEnds(q, added, n, w, mine, outputQueue.Contents());
    }
  }

  class ConsumerController {
    var consumers: seq<Consumer>
    const workerQueue: TSQueue<Item>
    const writerQueue: TSQueue<Item>
    const lowThreshold: int
    const highThreshold: int

    constructor (workerQueue: TSQueue<Item>, writerQueue: TSQueue<Item>, lowThreshold: int, highThreshold: int)
      ensures consumers == [] && this.workerQueue == workerQueue && this.writerQueue == writerQueue
      ensures this.lowThreshold == lowThreshold && this.highThreshold == highThreshold
    {
      consumers, this.workerQueue, this.writerQueue := [], workerQueue, writerQueue;
      this.lowThreshold, this.highThreshold := lowThreshold, highThreshold;
    }

    /** One round of the loop, with the two sizes that it sees. Only the last consumer is ever
        cancelled, and never the only one; the queues are left alone. */
    method Pass(observed: int, observedThen: int)
      modifies this, set c | c in consumers
      ensures var grown, shrinks := observed > highThreshold, observedThen < lowThreshold;
              var n := |old(consumers)| + if grown then 1 else 0;
              && |consumers| == (if shrinks && n > 1 then n - 1 else n)
              && (forall k :: 0 <= k < |consumers| && k < |old(consumers)| ==> consumers[k] == old(consumers)[k])
              && (forall k :: |old(consumers)| <= k < |consumers| ==>
                    fresh(consumers[k]) && !consumers[k].isCancel
                    && consumers[k].workerQueue == workerQueue && consumers[k].outputQueue == writerQueue)
              && (forall k :: |consumers| <= k < |old(consumers)| ==> old(consumers)[k].isCancel)
      ensures old(consumers) != [] ==> consumers != []
    {
      if observed > highThreshold {
        var consumer := new Consumer(workerQueue, writerQueue);
        consumers := consumers + [consumer];
      }
      if observedThen < lowThreshold && |consumers| > 1 {
        consumers[|consumers| - 1].Cancel();
        consumers := consumers[..|consumers| - 1];
      }
    }
  }
}
