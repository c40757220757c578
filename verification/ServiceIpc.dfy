/**
 * The queue between the core and the built-in apps. Each queued message is an
 * event block and a separately allocated copy of the payload. The handler of a
 * message may send further messages while its own is still at the head.
 */
module ServiceIpc {
  import opened Prelude

  type Pointer = nat

  datatype Kind = APP_TO_CORE | CORE_TO_APP

  /** What is allocated at a pointer. */
  datatype Block = EventBlock(kind: Kind, app: int, data: Pointer) | DataBlock(bytes: Bytes)

  type Heap = map<Pointer, Block>

  datatype Message = Message(kind: Kind, app: int, bytes: Bytes)

  /** A call of send_app_to_core or send_core_to_app; `app` is None when no app has the wsid. */
  datatype Send = Send(kind: Kind, app: Option<int>, data: Bytes, eventAllocated: bool, dataAllocated: bool)

  /** The message a send puts on the queue, if it does. */
  function Queued(s: Send): seq<Message> {
    if s.eventAllocated && s.dataAllocated && s.app.Some? then [Message(s.kind, s.app.value, s.data)] else []
  }

  function AllQueued(sends: seq<Send>): seq<Message> {
    if sends == [] then [] else AllQueued(sends[..|sends| - 1]) + Queued(sends[|sends| - 1])
  }

  /** A send whose payload cannot be allocated keeps its event block. */
  function Leaks(s: Send): nat {
    if s.eventAllocated && !s.dataAllocated then 1 else 0
  }

  function AllLeaks(sends: seq<Send>): nat {
    if sends == [] then 0 else AllLeaks(sends[..|sends| - 1]) + Leaks(sends[|sends| - 1])
  }

  predicate IsEvent(heap: Heap, p: Pointer) {
    p in heap && heap[p].EventBlock? && heap[p].data in heap && heap[heap[p].data].DataBlock?
  }

  /** Every live block lies below this address. */
  predicate Below(heap: Heap, brk: Pointer) {
    forall p <- heap :: p < brk
  }

  /** The queued events are allocated, and no two share a block. */
  predicate Separate(heap: Heap, queue: seq<Pointer>) {
    && (forall i :: 0 <= i < |queue| ==> IsEvent(heap, queue[i]))
    && (forall i, j :: 0 <= i < j < |queue| ==> queue[i] != queue[j] && heap[queue[i]].data != heap[queue[j]].data)
  }

  function MessageAt(heap: Heap, p: Pointer): Message
    requires IsEvent(heap, p)
  {
    Message(heap[p].kind, heap[p].app, heap[heap[p].data].bytes)
  }

  function Messages(heap: Heap, queue: seq<Pointer>): (ms: seq<Message>)
    requires forall i :: 0 <= i < |queue| ==> IsEvent(heap, queue[i])
    ensures |ms| == |queue|
    decreases |queue|
  {
    if queue == [] then [] else [MessageAt(heap, queue[0])] + Messages(heap, queue[1..])
  }

  lemma {:induction false} MessagesJoin(heap: Heap, a: seq<Pointer>, b: seq<Pointer>)
    requires forall i :: 0 <= i < |a| ==> IsEvent(heap, a[i])
    requires forall i :: 0 <= i < |b| ==> IsEvent(heap, b[i])
    ensures Messages(heap, a + b) == Messages(heap, a) + Messages(heap, b)
    decreases |a|
  {
    if a == [] {
      assert a + b == b;
    } else {
      assert (a + b)[1..] == a[1..] + b;
      MessagesJoin(heap, a[1..], b);
    }
  }

  /** Messages do not change when none of their blocks does. */
  lemma {:induction false} MessagesKept(heap: Heap, heap': Heap, queue: seq<Pointer>)
    requires forall i :: 0 <= i < |queue| ==> IsEvent(heap, queue[i]) && IsEvent(heap', queue[i])
    requires forall i :: 0 <= i < |queue| ==> MessageAt(heap, queue[i]) == MessageAt(heap', queue[i])
    ensures Messages(heap, queue) == Messages(heap', queue)
    decreases |queue|
  {
    if queue != [] {
      MessagesKept(heap, heap', queue[1..]);
    }
  }

  /** Nothing live was changed or released, and the queue only grew at its end. */
  ghost predicate Grown(before: Heap, heap: Heap, queueBefore: seq<Pointer>, queue: seq<Pointer>) {
    && queueBefore <= queue
    && forall p <- before :: p in heap && heap[p] == before[p]
  }

  lemma QueueKept(before: Heap, heap: Heap, queue: seq<Pointer>)
    requires Separate(before, queue) && Grown(before, heap, queue, queue)
    ensures Separate(heap, queue) && Messages(heap, queue) == Messages(before, queue)
  {
    forall i | 0 <= i < |queue|
      ensures IsEvent(heap, queue[i]) && MessageAt(heap, queue[i]) == MessageAt(before, queue[i])
    {
      assert IsEvent(before, queue[i]);
    }
    MessagesKept(before, heap, queue);
  }

  /** An event made of two new blocks joins the queue at its end. */
  lemma EventAppended(before: Heap, heap: Heap, queue: seq<Pointer>, event: Pointer)
    requires Separate(before, queue) && event !in before
    requires forall p <- before :: p in heap && heap[p] == before[p]
    requires IsEvent(heap, event) && heap[event].data !in before && heap[event].data != event
    ensures Separate(heap, queue + [event])
    ensures Messages(heap, queue + [event]) == Messages(before, queue) + [MessageAt(heap, event)]
  {
    QueueKept(before, heap, queue);
    MessagesJoin(heap, queue, [event]);
    assert Messages(heap, [event]) == [MessageAt(heap, event)] + Messages(heap, [event][1..]);
  }

  /** Releasing the head event touches no other queued event. */
  lemma HeadReleased(heap: Heap, head: Pointer, rest: seq<Pointer>)
    requires Separate(heap, [head] + rest)
    ensures IsEvent(heap, head) && heap[head].data != head
    ensures var heap' := heap - {heap[head].data} - {head};
            Separate(heap', rest) && Separate(heap, rest) && Messages(heap', rest) == Messages(heap, rest)
  {
    var queue := [head] + rest;
    assert IsEvent(heap, queue[0]);
    var heap' := heap - {heap[head].data} - {head};
    forall i | 0 <= i < |rest|
      ensures IsEvent(heap, rest[i]) && IsEvent(heap', rest[i]) && MessageAt(heap, rest[i]) == MessageAt(heap', rest[i])
    {
      assert rest[i] == queue[i + 1] && IsEvent(heap, queue[i + 1]);
    }
    forall i, j | 0 <= i < j < |rest|
      ensures rest[i] != rest[j] && heap[rest[i]].data != heap[rest[j]].data
    {
      assert rest[i] == queue[i + 1] && rest[j] == queue[j + 1];
    }
    MessagesKept(heap, heap', rest);
  }

  /** LL_DELETE: unlinks the first element at this address. */
  function Unlink(queue: seq<Pointer>, p: Pointer): seq<Pointer>
    requires p in queue
    decreases |queue|
  {
    if queue[0] == p then queue[1..] else [queue[0]] + Unlink(queue[1..], p)
  }

  class Ipc {
    var queue: seq<Pointer>
    var heap: Heap
    var brk: Pointer
    ghost var accepted: seq<Message>
    ghost var delivered: seq<Message>
    ghost var leaked: nat

    /** Two blocks are live for each queued event, beside the leaked ones. */
    ghost predicate WellFormed()
      reads this
    {
      Separate(heap, queue) && |heap| == 2 * |queue| + leaked && Below(heap, brk)
    }

    /** Everything accepted is delivered or queued, in order and exactly once. */
    ghost predicate Valid()
      reads this
    {
      WellFormed() && accepted == delivered + Messages(heap, queue)
    }

    constructor ()
      ensures Valid() && queue == [] && heap == map[] && accepted == [] && leaked == 0
    {
      queue, heap, brk := [], map[], 0;
      accepted, delivered, leaked := [], [], 0;
    }

    method Malloc(block: Block) returns (p: Pointer)
      requires Below(heap, brk)
      modifies this`heap, this`brk
      ensures Below(heap, brk) && brk == p + 1
      ensures p !in old(heap) && heap == old(heap)[p := block] && |heap| == |old(heap)| + 1
    {
      p := brk;
      heap, brk := heap[p := block], brk + 1;
    }

    /** Releasing a block that is not live would be a double free. */
    method Free(p: Pointer)
      requires p in heap
      modifies this`heap
      ensures heap == old(heap) - {p} && |heap| == |old(heap)| - 1
    {
      FreeOne(heap, p);
      heap := heap - {p};
    }

    /** send_app_to_core and send_core_to_app, which differ in the kind only. */
    method SendMessage(s: Send)
      requires WellFormed()
      modifies this
      ensures WellFormed() && delivered == old(delivered)
      ensures Messages(heap, queue) == old(Messages(heap, queue)) + Queued(s)
      ensures accepted == old(accepted) + Queued(s)
      ensures s.eventAllocated && s.dataAllocated && s.app.Some? ==>
                accepted == old(accepted) + [Message(s.kind, s.app.value, s.data)]
      ensures !(s.eventAllocated && s.dataAllocated && s.app.Some?) ==> accepted == old(accepted)
      ensures leaked == old(leaked) + if s.eventAllocated && !s.dataAllocated then 1 else 0
      ensures Grown(old(heap), heap, old(queue), queue)
    {
      if !s.eventAllocated {
        return;
      }
      var event := Malloc(EventBlock(s.kind, 0, 0));
      if !s.dataAllocated {
        leaked := leaked + 1;
        QueueKept(old(heap), heap, queue);
        return;
      }
      var data := Malloc(DataBlock(s.data));
      if s.app.None? {
        Free(data);
        Free(event);
        QueueKept(old(heap), heap, queue);
      } else {
        LinkEvent(event, data, s.kind, s.app.value, s.data, old(heap));
      }
    }

    /** Fills in the event and appends it to the list. */
    method LinkEvent(event: Pointer, data: Pointer, kind: Kind, app: int, bytes: Bytes, ghost before: Heap)
      requires Separate(before, queue) && Below(heap, brk) && |heap| == 2 * |queue| + leaked + 2
      requires event !in before && data !in before && event != data
      requires heap == before[event := EventBlock(kind, 0, 0)][data := DataBlock(bytes)]
      modifies this`heap, this`queue, this`accepted
      ensures WellFormed()
      ensures Messages(heap, queue) == Messages(before, old(queue)) + [Message(kind, app, bytes)]
      ensures accepted == old(accepted) + [Message(kind, app, bytes)]
      ensures Grown(before, heap, old(queue), queue)
    {
      heap := heap[event := EventBlock(kind, app, data)];
      EventAppended(before, heap, queue, event);
      queue := queue + [event];
      accepted := accepted + [Message(kind, app, bytes)];
    }

    /** The handler the message is fed to: it may send any messages. */
    method Deliver(m: Message, sends: seq<Send>)
      requires WellFormed()
      modifies this
      ensures WellFormed() && delivered == old(delivered) + [m]
      ensures leaked == old(leaked) + AllLeaks(sends)
      ensures Messages(heap, queue) == old(Messages(heap, queue)) + AllQueued(sends)
      ensures accepted == old(accepted) + AllQueued(sends)
      ensures Grown(old(heap), heap, old(queue), queue)
    {
      delivered := delivered + [m];
      for i := 0 to |sends|
        invariant WellFormed() && delivered == old(delivered) + [m]
        invariant leaked == old(leaked) + AllLeaks(sends[..i])
        invariant Messages(heap, queue) == old(Messages(heap, queue)) + AllQueued(sends[..i])
        invariant accepted == old(accepted) + AllQueued(sends[..i])
        invariant Grown(old(heap), heap, old(queue), queue)
      {
        assert sends[..i + 1][..i] == sends[..i];
        SendMessage(sends[i]);
      }
      assert sends[..|sends|] == sends;
    }

    /**
     * One message is handed over and released, whatever its handler sends. The
     * handler's messages go behind those already queued.
     */
    method Task(sends: seq<Send>)
      requires Valid()
      modifies this
      ensures Valid()
      ensures old(queue) == [] ==>
                accepted == old(accepted) && delivered == old(delivered) && leaked == old(leaked) && queue == []
      ensures old(queue) != [] ==>
                && delivered == old(delivered) + [old(Messages(heap, queue))[0]]
                && accepted == old(accepted) + AllQueued(sends)
                && leaked == old(leaked) + AllLeaks(sends)
    {
      if queue == [] {
        return;
      }
      var event := queue[0];
      assert IsEvent(heap, event);
      var message := Message(heap[event].kind, heap[event].app, heap[heap[event].data].bytes);
      ghost var waiting := Messages(heap, queue);
      Deliver(message, sends);
      ReleaseHead(event);
      assert accepted == old(delivered) + (waiting + AllQueued(sends));
      assert waiting + AllQueued(sends) == [message] + Messages(heap, queue);
    }

    /** Unlinks the delivered event and frees its two blocks. */
    method ReleaseHead(event: Pointer)
      requires WellFormed() && queue != [] && queue[0] == event
      modifies this`queue, this`heap
      ensures WellFormed()
      ensures old(Messages(heap, queue)) == [old(MessageAt(heap, queue[0]))] + Messages(heap, queue)
    {
      assert IsEvent(heap, event) && queue == [event] + queue[1..];
      HeadReleased(heap, event, queue[1..]);
      var data := heap[event].data;
      queue := Unlink(queue, event);
      Free(data);
      Free(event);
    }

    method TaskHasMore() returns (more: bool)
      requires Valid()
      ensures more <==> delivered != accepted
    {
      var queueLen := |queue|;
      more := queueLen > 0;
      assert |accepted| == |delivered| + |queue|;
      assert queue == [] ==> delivered + Messages(heap, queue) == delivered;
    }
  }

  lemma FreeOne(heap: Heap, p: Pointer)
    requires p in heap
    ensures |heap - {p}| == |heap| - 1
  {
    assert (heap - {p}).Keys == heap.Keys - {p};
    assert |heap.Keys - {p}| == |heap.Keys| - 1;
  }
}
