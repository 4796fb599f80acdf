// The receive side of src/uart_handler.c: a slab of eight reference-counted blocks, the event queue
// between the driver's callbacks and the worker, and the recovery that re-enables a stopped
// receiver. Callbacks run in interrupt context, so one may fall between any two of the worker's
// atomic operations; the worker is therefore a sequence of small steps. Addresses are offsets from
// the start of the slab.
module UartRx {
  import opened Bytes

  const BLOCK_COUNT := 8
  const BUF_SIZE := 512
  const QUEUE_SIZE := 8
  const SLAB_SIZE := 4160   // 8 blocks of 520 bytes
  const ALL_BLOCKS: set<nat> := {0, 1, 2, 3, 4, 5, 6, 7}

  /** rx_event_t */
  datatype Event = Event(ptr: nat, len: nat)

  /** RECOVERY_DISABLED is never stored: rx_disable is commented out in the source. */
  datatype Recovery = RecoveryIdle | RecoveryOngoing

  /** Where rx_process stands between two atomic operations. */
  datatype Worker =
    | Asleep
    | Polling                            // about to take an event from the queue
    | Reading(event: Event, done: nat)   // consuming the event byte by byte, then dropping its reference
    | Freeing(block: nat)                // the counter reached zero, the slab call is still to come
    | Recovering                         // the queue was empty, about to look at recovery_state
    | Allocating                         // recovery is ongoing, about to allocate
    | Initialising(block: nat)           // block allocated, its counter not yet set
    | Enabling(block: nat)               // about to call uart_rx_enable
    | Settling                           // enabled, about to swap recovery_state back to idle

  datatype Rx = Rx(
    counter: seq<int>,        // ref_counter of each block
    free: set<nat>,           // the slab's free blocks
    mem: seq<Byte>,           // the slab's memory
    owned: map<nat, nat>,     // blocks the driver owns, with how far it has filled each
    on: bool,                 // the receiver is enabled
    queue: seq<Event>,        // rx_event_queue
    worker: Worker,
    recovery: Recovery,
    queued: bool,             // rx_process_work is submitted or scheduled
    lost: set<nat>            // blocks rx_enable allocated and never gave back
  )

  // ------------------------------------------------------------------- blocks

  /** block_start_get as a block number. A struct rx_buf_t is 520 bytes: a 4-byte counter, a 4-byte
      length and the 512-byte buffer. */
  function BlockOf(ptr: nat): nat { ptr / 520 }

  function BufStart(block: nat): nat { block * 520 + 8 }

  /** Rounding down finds the block of every pointer into it, and of no other pointer. The 512 bytes of the
      buffer end where the block does. */
  lemma BlockOfExact(block: nat, ptr: nat)
    ensures BlockOf(ptr) == block <==> block * 520 <= ptr < (block + 1) * 520
    ensures BufStart(block) + 512 == (block + 1) * 520
  {
  }

  predicate EventOk(e: Event) {
    && 0 < e.len
    && BlockOf(e.ptr) < BLOCK_COUNT
    && BufStart(BlockOf(e.ptr)) <= e.ptr
    && e.ptr + e.len <= BufStart(BlockOf(e.ptr)) + BUF_SIZE
  }

  /** How much of its block's buffer an event reaches over. */
  function Reach(e: Event): int { e.ptr + e.len - BufStart(BlockOf(e.ptr)) }

  function Content(mem: seq<Byte>, e: Event): (c: seq<Byte>)
    requires |mem| == SLAB_SIZE && EventOk(e)
    ensures |c| == e.len
  {
    mem[e.ptr..e.ptr + e.len]
  }

  /** References the queued events hold on a block. */
  function Refs(queue: seq<Event>, block: nat): nat {
    if queue == [] then 0 else (if BlockOf(queue[0].ptr) == block then 1 else 0) + Refs(queue[1..], block)
  }

  /** The reference the worker holds. */
  function Held(w: Worker, block: nat): nat {
    match w
    case Reading(e, _) => if BlockOf(e.ptr) == block then 1 else 0
    case Enabling(b) => if b == block then 1 else 0
    case _ => 0
  }

  /** All references to a block: the driver's, the queue's, the worker's and the leaked ones. */
  function Total(s: Rx, block: nat): nat {
    (if block in s.owned then 1 else 0) + (if block in s.lost then 1 else 0)
    + Refs(s.queue, block) + Held(s.worker, block)
  }

  /** Between an allocator and a counter: the block is neither free nor counted. */
  predicate InTransit(w: Worker, block: nat) { w == Freeing(block) || w == Initialising(block) }

  // --------------------------------------------------------------- invariant

  predicate Shape(s: Rx) {
    && |s.counter| == BLOCK_COUNT && |s.mem| == SLAB_SIZE
    && (forall b :: b in s.free ==> b < BLOCK_COUNT)
    && (forall b :: b in s.owned ==> b < BLOCK_COUNT && s.owned[b] <= BUF_SIZE)
    && (forall b :: b in s.lost ==> b < BLOCK_COUNT)
    && (forall i :: 0 <= i < |s.queue| ==> EventOk(s.queue[i]))
    && match s.worker
       case Reading(e, done) => EventOk(e) && done <= e.len
       case Freeing(b) => b < BLOCK_COUNT
       case Initialising(b) => b < BLOCK_COUNT
       case Enabling(b) => b < BLOCK_COUNT
       case _ => true
  }

  /** The reference counters are exact, and a block is outside the slab exactly while someone
      refers to it or the worker is carrying it to or from the allocator. */
  predicate Counted(s: Rx)
    requires Shape(s)
  {
    forall b :: 0 <= b < BLOCK_COUNT ==>
      if b in s.free then Total(s, b) == 0 && !InTransit(s.worker, b)
      else if InTransit(s.worker, b) then Total(s, b) == 0
      else s.counter[b] == Total(s, b) > 0
  }

  /** Unread events lie below the fill mark of their block while the driver still owns it. */
  predicate BelowMark(s: Rx, e: Event) {
    BlockOf(e.ptr) in s.owned ==> Reach(e) <= s.owned[BlockOf(e.ptr)]
  }

  predicate Stable(s: Rx) {
    && (forall i :: 0 <= i < |s.queue| ==> BelowMark(s, s.queue[i]))
    && (s.worker.Reading? ==> BelowMark(s, s.worker.event))
  }

  /** Recovery and wake-ups. */
  predicate Control(s: Rx) {
    && |s.queue| <= QUEUE_SIZE
    && (!s.on ==> s.owned == map[])
    && (s.worker.Allocating? || s.worker.Initialising? || s.worker.Enabling? ==> s.recovery.RecoveryOngoing? && !s.on)
    && (s.worker.Enabling? && s.worker.block < |s.counter| ==> s.counter[s.worker.block] == 1)
    && (s.recovery.RecoveryOngoing? && !s.worker.Settling? ==> !s.on)
    && (s.worker.Settling? ==> s.recovery.RecoveryOngoing?)
    && (s.recovery.RecoveryOngoing? ==> s.queued || !s.worker.Asleep?)
    && (s.queue != [] ==> s.queued || s.worker.Polling? || s.worker.Reading? || s.worker.Freeing?)
  }

  predicate Inv(s: Rx) { Shape(s) && Counted(s) && Stable(s) && Control(s) }

  /** After uart_handler_init: one block handed to the driver, everything else free. */
  predicate Init(s: Rx, block: nat) {
    && block < BLOCK_COUNT
    && |s.counter| == BLOCK_COUNT && s.counter[block] == 1 && |s.mem| == SLAB_SIZE
    && s.free == ALL_BLOCKS - {block}
    && s.owned == map[block := 0] && s.on
    && s.queue == [] && s.worker == Asleep && s.recovery == RecoveryIdle && !s.queued && s.lost == {}
  }

  // -------------------------------------------------------------------- steps

  /** What can happen next. pick is the block the allocator would return; ok is a driver call's
      outcome; scribble is what the allocator leaves in the counter word of a block it takes back. */
  datatype Step =
    | RxRdy(block: nat, offset: nat, bytes: seq<Byte>, scribble: int)
    | BufRequest(pick: nat, ok: bool, scribble: int)
    | BufReleased(block: nat, scribble: int)
    | RxDisabled
    | Work(pick: nat, ok: bool, scribble: int)

  predicate PickOk(s: Rx, pick: nat) { s.free != {} ==> pick in s.free }

  /** The driver's contract, and when the work queue may run the worker. */
  predicate Enabled(s: Rx, e: Step) {
    match e
    case RxRdy(b, offset, bytes, _) =>
      s.on && b in s.owned && s.owned[b] <= offset && 0 < |bytes| && offset + |bytes| <= BUF_SIZE
    case BufRequest(pick, _, _) => s.on && PickOk(s, pick)
    case BufReleased(b, _) => s.on && b in s.owned
    case RxDisabled => s.on && s.owned == map[]
    case Work(pick, _, _) => (s.worker.Asleep? ==> s.queued) && (s.worker.Allocating? ==> PickOk(s, pick))
  }

  /** rx_buf_ref */
  function Ref(s: Rx, b: nat): Rx
    requires b < |s.counter|
  {
    s.(counter := s.counter[b := s.counter[b] + 1])
  }

  /** rx_buf_unref in one go, as a callback executes it. */
  function Unref(s: Rx, b: nat, scribble: int): Rx
    requires b < |s.counter|
  {
    if s.counter[b] == 1 then s.(counter := s.counter[b := scribble], free := s.free + {b})
    else s.(counter := s.counter[b := s.counter[b] - 1])
  }

  /** The driver's DMA write that precedes RX_RDY. */
  function Written(s: Rx, b: nat, offset: nat, bytes: seq<Byte>): Rx
    requires Shape(s) && b in s.owned && offset + |bytes| <= BUF_SIZE
  {
    var at := BufStart(b) + offset;
    s.(mem := s.mem[..at] + bytes + s.mem[at + |bytes|..], owned := s.owned[b := offset + |bytes|])
  }

  function OnRxRdy(s: Rx, b: nat, offset: nat, bytes: seq<Byte>, scribble: int): Rx
    requires Shape(s) && b in s.owned && offset + |bytes| <= BUF_SIZE
  {
    var t := Ref(Written(s, b, offset, bytes), b);
    if |t.queue| < QUEUE_SIZE then
      t.(queue := t.queue + [Event(BufStart(b) + offset, |bytes|)], queued := true)
    else
      Unref(t, b, scribble)
  }

  function OnBufRequest(s: Rx, pick: nat, ok: bool, scribble: int): Rx
    requires Shape(s) && PickOk(s, pick)
  {
    if s.free == {} then s
    else
      var t := s.(free := s.free - {pick}, counter := s.counter[pick := 1]);
      if ok then t.(owned := t.owned[pick := 0]) else Unref(t, pick, scribble)
  }

  function OnBufReleased(s: Rx, b: nat, scribble: int): Rx
    requires Shape(s) && b in s.owned
  {
    Unref(s.(owned := s.owned - {b}), b, scribble)
  }

  function OnRxDisabled(s: Rx): Rx {
    if s.recovery == RecoveryIdle then s.(on := false, recovery := RecoveryOngoing, queued := true)
    else s.(on := false)
  }

  /** One atomic operation of rx_process, rx_buf_unref, rx_recovery or rx_enable. */
  function OnWork(s: Rx, pick: nat, ok: bool, scribble: int): Rx
    requires Shape(s) && (s.worker.Allocating? ==> PickOk(s, pick))
  {
    match s.worker
    case Asleep => s.(queued := false, worker := Polling)
    case Polling =>
      if s.queue == [] then s.(worker := Recovering)
      else s.(queue := s.queue[1..], worker := Reading(s.queue[0], 0))
    case Reading(e, done) =>
      if done < e.len then s.(worker := Reading(e, done + 1))
      else
        var b := BlockOf(e.ptr);
        s.(counter := s.counter[b := s.counter[b] - 1],
           worker := if s.counter[b] == 1 then Freeing(b) else Polling)
    case Freeing(b) => s.(free := s.free + {b}, counter := s.counter[b := scribble], worker := Polling)
    case Recovering => s.(worker := if s.recovery == RecoveryOngoing then Allocating else Asleep)
    case Allocating =>
      if s.free == {} then s.(queued := true, worker := Asleep)
      else s.(free := s.free - {pick}, worker := Initialising(pick))
    case Initialising(b) => s.(counter := s.counter[b := 1], worker := Enabling(b))
    case Enabling(b) =>
      if ok then s.(owned := s.owned[b := 0], on := true, worker := Settling)
      else s.(lost := s.lost + {b}, queued := true, worker := Asleep)
    case Settling => s.(recovery := RecoveryIdle, worker := Asleep)
  }

  function Next(s: Rx, e: Step): Rx
    requires Shape(s) && Enabled(s, e)
  {
    match e
    case RxRdy(b, offset, bytes, scribble) => OnRxRdy(s, b, offset, bytes, scribble)
    case BufRequest(pick, ok, scribble) => OnBufRequest(s, pick, ok, scribble)
    case BufReleased(b, scribble) => OnBufReleased(s, b, scribble)
    case RxDisabled => OnRxDisabled(s)
    case Work(pick, ok, scribble) => OnWork(s, pick, ok, scribble)
  }

  // ----------------------------------------------- every step keeps the invariant

  lemma {:induction false} RefsSnoc(queue: seq<Event>, e: Event, block: nat)
    ensures Refs(queue + [e], block) == Refs(queue, block) + (if BlockOf(e.ptr) == block then 1 else 0)
  {
    if queue == [] {
      assert queue + [e] == [e];
    } else {
      assert (queue + [e])[1..] == queue[1..] + [e];
      RefsSnoc(queue[1..], e, block);
    }
  }

  lemma {:induction false} RefsOfMember(queue: seq<Event>, i: nat)
    requires i < |queue|
    ensures Refs(queue, BlockOf(queue[i].ptr)) > 0
  {
    if i > 0 {
      RefsOfMember(queue[1..], i - 1);
    }
  }

  lemma EventAt(b: nat, offset: nat, len: nat)
    requires b < BLOCK_COUNT && 0 < len && offset + len <= BUF_SIZE
    ensures var e := Event(BufStart(b) + offset, len);
            EventOk(e) && BlockOf(e.ptr) == b && Reach(e) == offset + len
  {
    BlockOfExact(b, BufStart(b) + offset);
  }

  /** A reception keeps every counter equal to the number of references, whether it is queued ... */
  lemma QueuedKeepsInv(s: Rx, b: nat, offset: nat, bytes: seq<Byte>)
    requires Inv(s) && Enabled(s, RxRdy(b, offset, bytes, 0)) && |s.queue| < QUEUE_SIZE
    ensures Inv(OnRxRdy(s, b, offset, bytes, 0))
  {
    hide Control;
    var t := OnRxRdy(s, b, offset, bytes, 0);
    var e := Event(BufStart(b) + offset, |bytes|);
    EventAt(b, offset, |bytes|);
    forall c | 0 <= c < BLOCK_COUNT
      ensures Total(t, c) == Total(s, c) + (if c == b then 1 else 0)
    {
      RefsSnoc(s.queue, e, c);
    }
    QueuedKeepsControl(s, b, offset, bytes);
  }

  lemma QueuedKeepsControl(s: Rx, b: nat, offset: nat, bytes: seq<Byte>)
    requires Shape(s) && Counted(s) && Control(s) && Enabled(s, RxRdy(b, offset, bytes, 0)) && |s.queue| < QUEUE_SIZE
    ensures Control(OnRxRdy(s, b, offset, bytes, 0))
  {
  }

  /** ... or dropped. */
  lemma DroppedKeepsInv(s: Rx, b: nat, offset: nat, bytes: seq<Byte>, scribble: int)
    requires Inv(s) && Enabled(s, RxRdy(b, offset, bytes, scribble)) && |s.queue| >= QUEUE_SIZE
    ensures Inv(OnRxRdy(s, b, offset, bytes, scribble))
  {
    var t := OnRxRdy(s, b, offset, bytes, scribble);
    assert Total(s, b) > 0;
    assert s.counter[b := s.counter[b] + 1][b := s.counter[b]] == s.counter;
    assert t.counter == s.counter && t.free == s.free;
    assert forall c :: 0 <= c < BLOCK_COUNT ==> Total(t, c) == Total(s, c);
  }

  lemma RxRdyKeepsInv(s: Rx, b: nat, offset: nat, bytes: seq<Byte>, scribble: int)
    requires Inv(s) && Enabled(s, RxRdy(b, offset, bytes, scribble))
    ensures Inv(OnRxRdy(s, b, offset, bytes, scribble))
  {
    hide Inv, Counted, Stable, Control;
    if |s.queue| < QUEUE_SIZE {
      QueuedKeepsInv(s, b, offset, bytes);
    } else {
      DroppedKeepsInv(s, b, offset, bytes, scribble);
    }
  }

  lemma BufRequestKeepsInv(s: Rx, pick: nat, ok: bool, scribble: int)
    requires Inv(s) && Enabled(s, BufRequest(pick, ok, scribble))
    ensures Inv(OnBufRequest(s, pick, ok, scribble))
  {
    if s.free != {} {
      NoEventInto(s, pick);
      var t := OnBufRequest(s, pick, ok, scribble);
      assert forall c :: 0 <= c < BLOCK_COUNT && c != pick ==> Total(t, c) == Total(s, c);
    }
  }

  /** No unread event points into a block without references. */
  lemma NoEventInto(s: Rx, b: nat)
    requires Shape(s) && b < BLOCK_COUNT && Total(s, b) == 0
    ensures forall i :: 0 <= i < |s.queue| ==> BlockOf(s.queue[i].ptr) != b
    ensures s.worker.Reading? ==> BlockOf(s.worker.event.ptr) != b
  {
    forall i | 0 <= i < |s.queue| ensures BlockOf(s.queue[i].ptr) != b {
      RefsOfMember(s.queue, i);
    }
  }

  lemma BufReleasedKeepsInv(s: Rx, b: nat, scribble: int)
    requires Inv(s) && Enabled(s, BufReleased(b, scribble))
    ensures Inv(OnBufReleased(s, b, scribble))
  {
    var t := OnBufReleased(s, b, scribble);
    assert forall c :: 0 <= c < BLOCK_COUNT ==> Total(t, c) == Total(s, c) - (if c == b then 1 else 0);
  }

  /** A request is answered with a free block, if there is one and the driver accepts it; a refused block
      goes back. Counters outside the slab are left alone. */
  lemma RequestOutcome(s: Rx, pick: nat, ok: bool, scribble: int)
    requires Inv(s) && Enabled(s, BufRequest(pick, ok, scribble))
    ensures var t := OnBufRequest(s, pick, ok, scribble);
            && t == s.(free := t.free, owned := t.owned, counter := t.counter)
            && (if ok && s.free != {} then t.free == s.free - {pick} && t.owned == s.owned[pick := 0]
                else t.free == s.free && t.owned == s.owned)
            && (forall b: nat :: b < BLOCK_COUNT && b !in s.free ==> t.counter[b] == s.counter[b])
  {
    hide Counted, Stable, Control;
    if s.free != {} {
      assert (s.free - {pick}) + {pick} == s.free;
    }
  }

  /** A reception is queued, and the worker submitted, if fewer than eight events are waiting; otherwise it
      leaves no trace but the bytes in memory and the driver's fill mark. */
  lemma ReceptionOutcome(s: Rx, b: nat, offset: nat, bytes: seq<Byte>, scribble: int)
    requires Inv(s) && Enabled(s, RxRdy(b, offset, bytes, scribble))
    ensures var t := OnRxRdy(s, b, offset, bytes, scribble);
            && t.owned == s.owned[b := offset + |bytes|] && t.free == s.free && t.worker == s.worker
            && t.mem == Written(s, b, offset, bytes).mem && Content(t.mem, Event(BufStart(b) + offset, |bytes|)) == bytes
            && (if |s.queue| < 8 then t.queue == s.queue + [Event(BufStart(b) + offset, |bytes|)] && t.queued
                else t == s.(mem := t.mem, owned := t.owned))
  {
    OwnedIsCounted(s, b);
    EventAt(b, offset, |bytes|);
    hide Counted, Stable, Control;
    assert s.counter[b := s.counter[b] + 1][b := s.counter[b]] == s.counter;
    var at := BufStart(b) + offset;
    assert Written(s, b, offset, bytes).mem[at..at + |bytes|] == bytes;
  }

  lemma PollingKeepsInv(s: Rx)
    requires Inv(s) && s.worker.Polling?
    ensures Inv(OnWork(s, 0, true, 0))
  {
    if s.queue != [] {
      var t := OnWork(s, 0, true, 0);
      assert forall c :: 0 <= c < BLOCK_COUNT ==> Total(t, c) == Total(s, c);
    }
  }

  lemma ReadingKeepsInv(s: Rx)
    requires Inv(s) && s.worker.Reading?
    ensures Inv(OnWork(s, 0, true, 0))
  {
    var t := OnWork(s, 0, true, 0);
    if s.worker.done < s.worker.event.len {
      assert forall c :: 0 <= c < BLOCK_COUNT ==> Total(t, c) == Total(s, c);
    } else {
      DroppingKeepsInv(s);
    }
  }

  lemma DroppingKeepsInv(s: Rx)
    requires Inv(s) && s.worker.Reading? && s.worker.done == s.worker.event.len
    ensures Inv(OnWork(s, 0, true, 0))
  {
    var t := OnWork(s, 0, true, 0);
    var b := BlockOf(s.worker.event.ptr);
    assert Total(s, b) > 0;
    assert forall c :: 0 <= c < BLOCK_COUNT ==> Total(t, c) == Total(s, c) - (if c == b then 1 else 0);
  }

  lemma EnablingKeepsInv(s: Rx, ok: bool)
    requires Inv(s) && s.worker.Enabling?
    ensures Inv(OnWork(s, 0, ok, 0))
  {
    var t := OnWork(s, 0, ok, 0);
    var b := s.worker.block;
    assert Total(s, b) == 1 && Refs(s.queue, b) == 0;
    forall i | 0 <= i < |s.queue| ensures BlockOf(s.queue[i].ptr) != b {
      RefsOfMember(s.queue, i);
    }
    assert forall c :: 0 <= c < BLOCK_COUNT ==> Total(t, c) == Total(s, c);
  }

  lemma AllocatorStepKeepsInv(s: Rx, pick: nat, scribble: int)
    requires Inv(s) && (s.worker.Freeing? || s.worker.Allocating? || s.worker.Initialising?)
    requires Enabled(s, Work(pick, true, scribble))
    ensures Inv(OnWork(s, pick, true, scribble))
  {
    var t := OnWork(s, pick, true, scribble);
    forall c | 0 <= c < BLOCK_COUNT
      ensures Total(t, c) == Total(s, c) + (if s.worker.Initialising? && c == s.worker.block then 1 else 0)
    {
    }
  }

  lemma ControlStepKeepsInv(s: Rx)
    requires Inv(s) && (s.worker.Asleep? || s.worker.Recovering? || s.worker.Settling?)
    requires Enabled(s, Work(0, true, 0))
    ensures Inv(OnWork(s, 0, true, 0))
  {
    assert forall c :: 0 <= c < BLOCK_COUNT ==> Total(OnWork(s, 0, true, 0), c) == Total(s, c);
  }

  lemma WorkKeepsInv(s: Rx, pick: nat, ok: bool, scribble: int)
    requires Inv(s) && Enabled(s, Work(pick, ok, scribble))
    ensures Inv(OnWork(s, pick, ok, scribble))
  {
    match s.worker
    case Polling => PollingKeepsInv(s);
    case Reading(_, _) => ReadingKeepsInv(s);
    case Enabling(_) => EnablingKeepsInv(s, ok);
    case Freeing(_) => AllocatorStepKeepsInv(s, pick, scribble);
    case Allocating => AllocatorStepKeepsInv(s, pick, scribble);
    case Initialising(_) => AllocatorStepKeepsInv(s, pick, scribble);
    case _ => ControlStepKeepsInv(s);
  }

  /** Reference counters, stability of unread data and the wake-up rules survive every step. */
  lemma StepKeepsInv(s: Rx, e: Step)
    requires Inv(s) && Enabled(s, e)
    ensures Inv(Next(s, e))
  {
    match e
    case RxRdy(b, offset, bytes, scribble) => RxRdyKeepsInv(s, b, offset, bytes, scribble);
    case BufRequest(pick, ok, scribble) => BufRequestKeepsInv(s, pick, ok, scribble);
    case BufReleased(b, scribble) => BufReleasedKeepsInv(s, b, scribble);
    case RxDisabled =>
      assert forall c :: 0 <= c < BLOCK_COUNT ==> Total(OnRxDisabled(s), c) == Total(s, c);
    case Work(pick, ok, scribble) => WorkKeepsInv(s, pick, ok, scribble);
  }

  /** A block goes back to the slab, or is on its way there, exactly when its last reference goes. */
  lemma FreedWithLastReference(s: Rx, e: Step, b: nat)
    requires Inv(s) && Enabled(s, e) && b < BLOCK_COUNT && Total(s, b) > 0
    ensures Total(Next(s, e), b) == 0 <==> b in Next(s, e).free || Next(s, e).worker == Freeing(b)
  {
    StepKeepsInv(s, e);
  }

  // --------------------------------------------------------------------- runs

  /** Any interleaving of callbacks and worker operations. (Shape holds throughout by RunKeepsInv.) */
  predicate ValidRun(s: Rx, es: seq<Step>)
    decreases |es|
  {
    es == [] || (Shape(s) && Enabled(s, es[0]) && ValidRun(Next(s, es[0]), es[1..]))
  }

  function Final(s: Rx, es: seq<Step>): Rx
    requires ValidRun(s, es)
    decreases |es|
  {
    if es == [] then s else Final(Next(s, es[0]), es[1..])
  }

  /** The invariant holds after every run of the machine from its initial state. */
  lemma {:induction false} RunKeepsInv(s: Rx, es: seq<Step>)
    requires Inv(s) && ValidRun(s, es)
    ensures Inv(Final(s, es))
    decreases |es|
  {
    if es != [] {
      StepKeepsInv(s, es[0]);
      RunKeepsInv(Next(s, es[0]), es[1..]);
    }
  }

  lemma InitEstablishesInv(s: Rx, block: nat)
    requires Init(s, block)
    ensures Inv(s)
  {
    assert forall b: nat :: b < BLOCK_COUNT ==> b in ALL_BLOCKS;
  }

  // ------------------------------------------------------------- FIFO refinement

  /** The bytes a step adds to the stream: an RX_RDY the queue had room for. */
  function Accepted(s: Rx, e: Step): seq<Byte> {
    match e
    case RxRdy(_, _, bytes, _) => if |s.queue| < QUEUE_SIZE then bytes else []
    case _ => []
  }

  /** The byte a step hands to the protocol code. */
  function Consumed(s: Rx, e: Step): seq<Byte>
    requires Shape(s)
  {
    if e.Work? && s.worker.Reading? && s.worker.done < s.worker.event.len
    then [Content(s.mem, s.worker.event)[s.worker.done]]
    else []
  }

  /** The queued events as byte strings, read from the memory they point into. */
  function EventsIn(mem: seq<Byte>, queue: seq<Event>): seq<seq<Byte>>
    requires |mem| == SLAB_SIZE && forall i :: 0 <= i < |queue| ==> EventOk(queue[i])
  {
    if queue == [] then [] else [Content(mem, queue[0])] + EventsIn(mem, queue[1..])
  }

  function QueueContent(mem: seq<Byte>, queue: seq<Event>): seq<Byte>
    requires |mem| == SLAB_SIZE && forall i :: 0 <= i < |queue| ==> EventOk(queue[i])
  {
    Flatten(EventsIn(mem, queue))
  }

  function InProcess(s: Rx): seq<Byte>
    requires Shape(s)
  {
    if s.worker.Reading? then Content(s.mem, s.worker.event)[s.worker.done..] else []
  }

  /** Bytes received and not yet consumed, as the slab's memory holds them now. */
  function Pending(s: Rx): seq<Byte>
    requires Shape(s)
  {
    InProcess(s) + QueueContent(s.mem, s.queue)
  }

  function AcceptedBy(s: Rx, es: seq<Step>): seq<Byte>
    requires ValidRun(s, es)
    decreases |es|
  {
    if es == [] then [] else Accepted(s, es[0]) + AcceptedBy(Next(s, es[0]), es[1..])
  }

  function ConsumedBy(s: Rx, es: seq<Step>): seq<Byte>
    requires ValidRun(s, es)
    decreases |es|
  {
    if es == [] then [] else Consumed(s, es[0]) + ConsumedBy(Next(s, es[0]), es[1..])
  }

  lemma {:induction false} EventsSnoc(mem: seq<Byte>, queue: seq<Event>, e: Event)
    requires |mem| == SLAB_SIZE && EventOk(e) && forall i :: 0 <= i < |queue| ==> EventOk(queue[i])
    ensures EventsIn(mem, queue + [e]) == EventsIn(mem, queue) + [Content(mem, e)]
    ensures QueueContent(mem, queue + [e]) == QueueContent(mem, queue) + Content(mem, e)
  {
    if queue == [] {
      assert queue + [e] == [e];
    } else {
      assert (queue + [e])[1..] == queue[1..] + [e];
      EventsSnoc(mem, queue[1..], e);
    }
    FlattenSnoc(EventsIn(mem, queue), Content(mem, e));
  }

  lemma {:induction false} EventsFrame(before: seq<Byte>, after: seq<Byte>, queue: seq<Event>)
    requires |before| == |after| == SLAB_SIZE
    requires forall i :: 0 <= i < |queue| ==> EventOk(queue[i]) && Content(before, queue[i]) == Content(after, queue[i])
    ensures EventsIn(before, queue) == EventsIn(after, queue)
  {
    if queue != [] {
      EventsFrame(before, after, queue[1..]);
    }
  }

  lemma FirstEvent(mem: seq<Byte>, queue: seq<Event>)
    requires |mem| == SLAB_SIZE && queue != [] && forall i :: 0 <= i < |queue| ==> EventOk(queue[i])
    ensures EventsIn(mem, queue)[0] == Content(mem, queue[0])
    ensures EventsIn(mem, queue)[1..] == EventsIn(mem, queue[1..])
    ensures QueueContent(mem, queue) == Content(mem, queue[0]) + QueueContent(mem, queue[1..])
  {
  }

  lemma SliceOutsideWrite(mem: seq<Byte>, at: nat, bytes: seq<Byte>, from: nat, to: nat)
    requires at + |bytes| <= |mem| && from <= to <= |mem| && (to <= at || at + |bytes| <= from)
    ensures (mem[..at] + bytes + mem[at + |bytes|..])[from..to] == mem[from..to]
  {
  }

  /** The driver's next write leaves every unread byte alone. */
  lemma WriteMissesUnread(s: Rx, b: nat, offset: nat, bytes: seq<Byte>, e: Event)
    requires Shape(s) && EventOk(e) && BelowMark(s, e)
    requires b in s.owned && s.owned[b] <= offset && offset + |bytes| <= BUF_SIZE
    ensures Content(Written(s, b, offset, bytes).mem, e) == Content(s.mem, e)
  {
    var at := BufStart(b) + offset;
    var c := BlockOf(e.ptr);
    if c == b {
      assert Reach(e) <= s.owned[b];
      assert e.ptr + e.len <= at;
    } else if c < b {
      assert e.ptr + e.len <= BufStart(c) + 512 <= BufStart(b) <= at;
    } else {
      assert at + |bytes| <= BufStart(b) + 512 <= BufStart(c) <= e.ptr;
    }
    SliceOutsideWrite(s.mem, at, bytes, e.ptr, e.ptr + e.len);
  }

  lemma WriteKeepsPending(s: Rx, b: nat, offset: nat, bytes: seq<Byte>)
    requires Shape(s) && Stable(s)
    requires b in s.owned && s.owned[b] <= offset && offset + |bytes| <= BUF_SIZE
    ensures var w := Written(s, b, offset, bytes);
            && |w.mem| == SLAB_SIZE
            && EventsIn(w.mem, s.queue) == EventsIn(s.mem, s.queue)
            && (s.worker.Reading? ==> Content(w.mem, s.worker.event) == Content(s.mem, s.worker.event))
  {
    var w := Written(s, b, offset, bytes);
    forall i | 0 <= i < |s.queue| ensures Content(s.mem, s.queue[i]) == Content(w.mem, s.queue[i]) {
      WriteMissesUnread(s, b, offset, bytes, s.queue[i]);
    }
    EventsFrame(s.mem, w.mem, s.queue);
    if s.worker.Reading? {
      WriteMissesUnread(s, b, offset, bytes, s.worker.event);
    }
  }

  lemma RxRdyFifo(s: Rx, b: nat, offset: nat, bytes: seq<Byte>, scribble: int)
    requires Inv(s) && Enabled(s, RxRdy(b, offset, bytes, scribble))
    requires Shape(OnRxRdy(s, b, offset, bytes, scribble))
    ensures Pending(OnRxRdy(s, b, offset, bytes, scribble)) ==
            Pending(s) + Accepted(s, RxRdy(b, offset, bytes, scribble))
  {
    hide Counted, Control, Stable;
    var t := OnRxRdy(s, b, offset, bytes, scribble);
    RxRdyEvents(s, b, offset, bytes, scribble);
    if |s.queue| < QUEUE_SIZE {
      FlattenSnoc(EventsIn(s.mem, s.queue), bytes);
      Associative(InProcess(s), QueueContent(s.mem, s.queue), bytes);
    } else {
      NothingAppended(EventsIn(s.mem, s.queue));
      NothingAppended(Pending(s));
    }
  }

  /** Taking the byte at position i off a tail. */
  lemma TakeByte(c: seq<Byte>, i: nat, rest: seq<Byte>)
    requires i < |c|
    ensures [c[i]] + (c[i + 1..] + rest) == c[i..] + rest
  {
  }

  lemma ReadByteFifo(s: Rx)
    requires Shape(s) && s.worker.Reading? && s.worker.done < s.worker.event.len
    requires Shape(OnWork(s, 0, true, 0))
    ensures Consumed(s, Work(0, true, 0)) + Pending(OnWork(s, 0, true, 0)) == Pending(s)
  {
    hide QueueContent;
    TakeByte(Content(s.mem, s.worker.event), s.worker.done, QueueContent(s.mem, s.queue));
  }

  lemma PollFifo(s: Rx)
    requires Shape(s) && s.worker.Polling? && s.queue != [] && Shape(OnWork(s, 0, true, 0))
    ensures Pending(OnWork(s, 0, true, 0)) == Pending(s)
  {
    hide QueueContent;
    FirstEvent(s.mem, s.queue);
    NothingAppended(QueueContent(s.mem, s.queue));
    var t := OnWork(s, 0, true, 0);
    assert InProcess(t) == Content(s.mem, s.queue[0]);
  }

  lemma QuietWorkFifo(s: Rx, pick: nat, ok: bool, scribble: int)
    requires Shape(s) && Enabled(s, Work(pick, ok, scribble)) && Shape(OnWork(s, pick, ok, scribble))
    requires s.worker.Polling? ==> s.queue == []
    requires s.worker.Reading? ==> s.worker.done == s.worker.event.len
    ensures Pending(OnWork(s, pick, ok, scribble)) == Pending(s)
  {
    hide QueueContent;
    var t := OnWork(s, pick, ok, scribble);
    assert t.mem == s.mem && t.queue == s.queue && InProcess(t) == [] == InProcess(s);
  }

  lemma WorkFifo(s: Rx, pick: nat, ok: bool, scribble: int)
    requires Shape(s) && Enabled(s, Work(pick, ok, scribble)) && Shape(OnWork(s, pick, ok, scribble))
    ensures Consumed(s, Work(pick, ok, scribble)) + Pending(OnWork(s, pick, ok, scribble)) == Pending(s)
  {
    hide Pending;
    NothingAppended(Pending(s));
    if s.worker.Reading? && s.worker.done < s.worker.event.len {
      ReadByteFifo(s);
    } else if s.worker.Polling? && s.queue != [] {
      PollFifo(s);
    } else {
      QuietWorkFifo(s, pick, ok, scribble);
    }
  }

  lemma OtherStepsKeepPending(s: Rx, e: Step)
    requires Shape(s) && Enabled(s, e) && Shape(Next(s, e)) && !e.RxRdy? && !e.Work?
    ensures Pending(Next(s, e)) == Pending(s)
  {
    var t := Next(s, e);
    assert t.mem == s.mem && t.queue == s.queue && t.worker == s.worker;
  }

  lemma StepFifo(s: Rx, e: Step)
    requires Inv(s) && Enabled(s, e) && Shape(Next(s, e))
    ensures Consumed(s, e) + Pending(Next(s, e)) == Pending(s) + Accepted(s, e)
  {
    var after := Pending(Next(s, e));
    NothingAppended(after);
    NothingAppended(Pending(s));
    if e.RxRdy? {
      RxRdyFifo(s, e.block, e.offset, e.bytes, e.scribble);
    } else if e.Work? {
      WorkFifo(s, e.pick, e.ok, e.scribble);
    } else {
      OtherStepsKeepPending(s, e);
    }
  }

  /** Two equations of the form consumed + after == before + accepted chain to one. */
  lemma Chain(c: seq<Byte>, before: seq<Byte>, a: seq<Byte>, mid: seq<Byte>,
              c': seq<Byte>, a': seq<Byte>, after: seq<Byte>)
    requires c + mid == before + a && c' + after == mid + a'
    ensures (c + c') + after == before + (a + a')
  {
    assert (c + c') + after == c + (c' + after) == (c + mid) + a' == before + (a + a');
  }

  /** The pool and the queue are a FIFO of bytes: over every run, what was consumed, then what the
      memory still holds unread, is what was unread before, then every accepted event in order. */
  lemma {:induction false} RunIsFifo(s: Rx, es: seq<Step>)
    requires Inv(s) && ValidRun(s, es)
    ensures Shape(Final(s, es))
    ensures ConsumedBy(s, es) + Pending(Final(s, es)) == Pending(s) + AcceptedBy(s, es)
    decreases |es|
  {
    if es == [] {
      assert [] + Pending(s) == Pending(s) + [];
    } else {
      var t := Next(s, es[0]);
      StepKeepsInv(s, es[0]);
      StepFifo(s, es[0]);
      RunIsFifo(t, es[1..]);
      Chain(Consumed(s, es[0]), Pending(s), Accepted(s, es[0]), Pending(t),
            ConsumedBy(t, es[1..]), AcceptedBy(t, es[1..]), Pending(Final(t, es[1..])));
    }
  }

  /** Event by event: an accepted RX_RDY appends its bytes, polling takes the first event into the
      worker's hands, nothing else changes the queued events, and what the worker is reading stays as
      it was when it was received. */
  lemma EventQueueStep(s: Rx, e: Step)
    requires Inv(s) && Enabled(s, e) && Shape(Next(s, e))
    ensures var t := Next(s, e);
            var q, r := EventsIn(s.mem, s.queue), EventsIn(t.mem, t.queue);
            && (if e.RxRdy? && |s.queue| < QUEUE_SIZE then r == q + [e.bytes]
                else if e.Work? && s.worker.Polling? && s.queue != [] then
                  r == q[1..] && t.worker.Reading? && Content(t.mem, t.worker.event) == q[0]
                else r == q)
            && (s.worker.Reading? && t.worker.Reading? ==>
                  Content(t.mem, t.worker.event) == Content(s.mem, s.worker.event))
  {
    hide Counted, Control, QueueContent, Stable;
    if e.RxRdy? {
      RxRdyEvents(s, e.block, e.offset, e.bytes, e.scribble);
    } else if e.Work? {
      WorkEvents(s, e.pick, e.ok, e.scribble);
    }
  }

  lemma WorkEvents(s: Rx, pick: nat, ok: bool, scribble: int)
    requires Shape(s) && Enabled(s, Work(pick, ok, scribble)) && Shape(OnWork(s, pick, ok, scribble))
    ensures var t := OnWork(s, pick, ok, scribble);
            && t.mem == s.mem
            && (if s.worker.Polling? && s.queue != []
                then t.queue == s.queue[1..] && t.worker == Reading(s.queue[0], 0)
                     && EventsIn(t.mem, t.queue) == EventsIn(s.mem, s.queue)[1..]
                     && Content(s.mem, s.queue[0]) == EventsIn(s.mem, s.queue)[0]
                else t.queue == s.queue)
            && (s.worker.Reading? && t.worker.Reading? ==> t.worker.event == s.worker.event)
  {
    if s.worker.Polling? && s.queue != [] {
      FirstEvent(s.mem, s.queue);
    }
  }

  lemma RxRdyEvents(s: Rx, b: nat, offset: nat, bytes: seq<Byte>, scribble: int)
    requires Inv(s) && Enabled(s, RxRdy(b, offset, bytes, scribble))
    requires Shape(OnRxRdy(s, b, offset, bytes, scribble))
    ensures var t := OnRxRdy(s, b, offset, bytes, scribble);
            && EventsIn(t.mem, t.queue) ==
               EventsIn(s.mem, s.queue) + (if |s.queue| < QUEUE_SIZE then [bytes] else [])
            && (s.worker.Reading? ==> Content(t.mem, s.worker.event) == Content(s.mem, s.worker.event))
  {
    hide Counted, Control, QueueContent;
    var w := Written(s, b, offset, bytes);
    WriteKeepsPending(s, b, offset, bytes);
    if |s.queue| < QUEUE_SIZE {
      var e := Event(BufStart(b) + offset, |bytes|);
      EventAt(b, offset, |bytes|);
      EventsSnoc(w.mem, s.queue, e);
      assert Content(w.mem, e) == bytes;
    } else {
      NothingAppended(EventsIn(s.mem, s.queue));
    }
  }

  // ------------------------------------------------------------------ recovery

  /** All events together hold as many references as there are events. */
  lemma {:induction false} RefsSum(queue: seq<Event>)
    requires forall i :: 0 <= i < |queue| ==> BlockOf(queue[i].ptr) < BLOCK_COUNT
    ensures Refs(queue, 0) + Refs(queue, 1) + Refs(queue, 2) + Refs(queue, 3)
          + Refs(queue, 4) + Refs(queue, 5) + Refs(queue, 6) + Refs(queue, 7) == |queue|
  {
    if queue != [] {
      RefsSum(queue[1..]);
    }
  }

  /** If recovery finds no block, every block is leaked or pinned by an unread queued event; with
      nothing leaked the queue is full and holds one event per block. */
  lemma FailedRecoveryMeansFullQueue(s: Rx)
    requires Inv(s) && s.worker.Allocating? && s.free == {}
    ensures forall b :: 0 <= b < BLOCK_COUNT ==> b in s.lost || Refs(s.queue, b) > 0
    ensures s.lost == {} ==> |s.queue| == QUEUE_SIZE && forall b :: 0 <= b < BLOCK_COUNT ==> Refs(s.queue, b) == 1
  {
    forall b | 0 <= b < BLOCK_COUNT ensures b in s.lost || Refs(s.queue, b) > 0 {
      assert Total(s, b) > 0;
    }
    RefsSum(s.queue);
  }

  /** The receiver is off in every state of the run. */
  predicate StaysOff(s: Rx, es: seq<Step>)
    requires ValidRun(s, es)
    decreases |es|
  {
    !s.on && (es == [] || StaysOff(Next(s, es[0]), es[1..]))
  }

  lemma {:induction false} DrainedWhenRecovering(s: Rx, es: seq<Step>)
    requires Inv(s) && ValidRun(s, es) && StaysOff(s, es)
    requires s.worker.Recovering? || s.worker.Allocating? ==> s.queue == []
    ensures var t := Final(s, es); t.worker.Recovering? || t.worker.Allocating? ==> t.queue == []
    decreases |es|
  {
    if es != [] {
      StepKeepsInv(s, es[0]);
      DrainedWhenRecovering(Next(s, es[0]), es[1..]);
    }
  }

  lemma AllOrSome(lost: set<nat>)
    requires forall b :: b in lost ==> b < BLOCK_COUNT
    ensures lost <= ALL_BLOCKS && (ALL_BLOCKS - lost == {} <==> lost == ALL_BLOCKS)
  {
    assert forall b: nat :: b < BLOCK_COUNT ==> b in ALL_BLOCKS;
    var rest := ALL_BLOCKS - lost;
    assert forall b :: b in ALL_BLOCKS ==> b in lost || b in rest;
    assert rest == {} ==> forall b :: b in ALL_BLOCKS ==> b in lost;
  }

  /** When the receiver is off, the queue is drained and the worker carries nothing, every block that
      was not leaked is free. */
  lemma DrainedFreeBlocks(s: Rx)
    requires Inv(s) && !s.on && s.queue == []
    requires s.worker.Asleep? || s.worker.Recovering? || s.worker.Allocating?
    ensures s.free == ALL_BLOCKS - s.lost && s.lost <= ALL_BLOCKS
    ensures s.free == {} <==> s.lost == ALL_BLOCKS
  {
    forall b: nat ensures b in s.free <==> b in ALL_BLOCKS - s.lost {
      if b < BLOCK_COUNT {
        assert b in ALL_BLOCKS;
        assert Total(s, b) == if b in s.lost then 1 else 0;
      } else {
        assert b !in ALL_BLOCKS && b !in s.free;
      }
    }
    AllOrSome(s.lost);
    assert s.free == ALL_BLOCKS - s.lost;
  }

  /** A worker run that starts after RX_DISABLED has drained the queue by the time it allocates, and
      then every block that was not leaked is free. So recovery fails exactly when all are leaked. */
  lemma RecoveryFindsBlock(s: Rx, es: seq<Step>)
    requires Inv(s) && s.worker.Asleep? && ValidRun(s, es) && StaysOff(s, es)
    requires Final(s, es).worker.Allocating?
    ensures var t := Final(s, es);
            && t.queue == []
            && t.free == ALL_BLOCKS - t.lost
            && (t.free == {} <==> t.lost == ALL_BLOCKS)
  {
    var t := Final(s, es);
    DrainedWhenRecovering(s, es);
    RunKeepsInv(s, es);
    FinalIsOff(s, es);
    DrainedFreeBlocks(t);
  }

  lemma {:induction false} FinalIsOff(s: Rx, es: seq<Step>)
    requires ValidRun(s, es) && StaysOff(s, es)
    ensures !Final(s, es).on
    decreases |es|
  {
    if es != [] {
      FinalIsOff(Next(s, es[0]), es[1..]);
    }
  }

  /** Calls of uart_rx_enable that failed. */
  function Failures(s: Rx, es: seq<Step>): nat
    requires ValidRun(s, es)
    decreases |es|
  {
    if es == [] then 0
    else
      (if es[0].Work? && !es[0].ok && s.worker.Enabling? then 1 else 0) + Failures(Next(s, es[0]), es[1..])
  }

  lemma StepLeak(s: Rx, e: Step)
    requires Inv(s) && Enabled(s, e)
    ensures if e.Work? && !e.ok && s.worker.Enabling?
            then s.worker.block !in s.lost && Next(s, e).lost == s.lost + {s.worker.block}
            else Next(s, e).lost == s.lost
  {
    if s.worker.Enabling? {
      assert Total(s, s.worker.block) == 1;
    }
  }

  /** Each failed uart_rx_enable leaks one block for good; nothing else leaks any. */
  lemma {:induction false} EachFailureLeaksOneBlock(s: Rx, es: seq<Step>)
    requires Inv(s) && ValidRun(s, es)
    ensures s.lost <= Final(s, es).lost && |Final(s, es).lost| == |s.lost| + Failures(s, es)
    decreases |es|
  {
    if es != [] {
      StepKeepsInv(s, es[0]);
      StepLeak(s, es[0]);
      EachFailureLeaksOneBlock(Next(s, es[0]), es[1..]);
    }
  }

  /** No run turns the receiver on again. */
  ghost predicate OffForGood(s: Rx) { forall es | ValidRun(s, es) :: !Final(s, es).on }

  /** The request for a recovery is gone, or about to be wiped out by the swap back to idle. */
  predicate Forgotten(s: Rx) { !s.on && (s.recovery.RecoveryIdle? || s.worker.Settling?) }

  /** Every block was handed to a uart_rx_enable that failed. */
  predicate Exhausted(s: Rx) { !s.on && s.lost == ALL_BLOCKS }

  /** RX_DISABLED arriving between uart_rx_enable and the swap back to idle. */
  predicate DisabledWhileSettling(s: Rx, es: seq<Step>)
    requires ValidRun(s, es)
    decreases |es|
  {
    es != [] && ((es[0].RxDisabled? && s.worker.Settling?) || DisabledWhileSettling(Next(s, es[0]), es[1..]))
  }

  lemma {:induction false} ForgottenIff(s: Rx, es: seq<Step>)
    requires Inv(s) && ValidRun(s, es)
    ensures Forgotten(Final(s, es)) <==> Forgotten(s) || DisabledWhileSettling(s, es)
    decreases |es|
  {
    hide Shape, Counted, Stable;
    if es != [] {
      StepKeepsInv(s, es[0]);
      ForgottenStep(s, es[0]);
      ForgottenIff(Next(s, es[0]), es[1..]);
    }
  }

  lemma ForgottenStep(s: Rx, e: Step)
    requires Shape(s) && Control(s) && Enabled(s, e)
    ensures Forgotten(Next(s, e)) <==> Forgotten(s) || (e.RxDisabled? && s.worker.Settling?)
  {
  }

  /** With every block leaked the worker never gets to call the driver again. */
  lemma ExhaustedStep(s: Rx, e: Step)
    requires Inv(s) && Exhausted(s) && Enabled(s, e)
    ensures Exhausted(Next(s, e))
  {
    forall b: nat | b < BLOCK_COUNT ensures b !in s.free && s.worker != Enabling(b) {
      assert b in ALL_BLOCKS;
      assert Total(s, b) >= 1;
      assert s.worker == Enabling(b) ==> Total(s, b) == 2;
    }
    assert s.free == {};
    StepLeak(s, e);
  }

  lemma {:induction false} ExhaustedRun(s: Rx, es: seq<Step>)
    requires Inv(s) && Exhausted(s) && ValidRun(s, es)
    ensures Exhausted(Final(s, es))
    decreases |es|
  {
    if es != [] {
      StepKeepsInv(s, es[0]);
      ExhaustedStep(s, es[0]);
      ExhaustedRun(Next(s, es[0]), es[1..]);
    }
  }

  /** How far the worker, run without interruption, is from turning a stopped receiver on. */
  function Distance(s: Rx): int {
    match s.worker
    case Reading(e, done) => 41 + e.len - done
    case Freeing(_) => 40
    case Asleep => if s.queue == [] then 39 else 2
    case Polling => if s.queue == [] then 38 else 1
    case Recovering => 37
    case Allocating => 36
    case Initialising(_) => 35
    case Enabling(_) => 34
    case Settling => 33
  }

  predicate Recoverable(s: Rx) { !Forgotten(s) && !Exhausted(s) }

  /** The worker's next step, when the driver cooperates. */
  function WorkStep(s: Rx, pick: nat): Step { Work(pick, true, 0) }

  ghost function Pick(s: Rx): (pick: nat)
    ensures PickOk(s, pick)
  {
    if s.free == {} then 0 else var b :| b in s.free; b
  }

  /** With a cooperating driver every worker step comes closer: it takes an event, or leaves the queue
      alone and shortens the distance, until the receiver is on. */
  lemma RecoveryAdvances(s: Rx)
    requires Inv(s) && !s.on && Recoverable(s)
    ensures var e := WorkStep(s, Pick(s));
            && Enabled(s, e) && Inv(Next(s, e))
            && (Next(s, e).on
                || (&& Recoverable(Next(s, e))
                    && (|Next(s, e).queue| < |s.queue|
                        || (Next(s, e).queue == s.queue && 0 <= Distance(Next(s, e)) < Distance(s)))))
  {
    var e := WorkStep(s, Pick(s));
    var t := Next(s, e);
    StepKeepsInv(s, e);
    StepLeak(s, e);
    if s.worker.Allocating? && s.queue == [] {
      DrainedFreeBlocks(s);
    }
  }

  lemma {:induction false} SomeRunTurnsOn(s: Rx)
    requires Inv(s) && (s.on || Recoverable(s))
    ensures !OffForGood(s)
    decreases if s.on then 0 else 1, |s.queue|, Distance(s)
  {
    hide Shape, Counted, Stable, Control, Enabled, Next, Recoverable, Distance;
    if s.on {
      assert ValidRun(s, []) && Final(s, []) == s;
    } else {
      RecoveryAdvances(s);
      var e := WorkStep(s, Pick(s));
      SomeRunTurnsOn(Next(s, e));
      var es :| ValidRun(Next(s, e), es) && Final(Next(s, e), es).on;
      OneStepMore(s, e, es);
    }
  }

  lemma OneStepMore(s: Rx, e: Step, es: seq<Step>)
    requires Shape(s) && Enabled(s, e) && ValidRun(Next(s, e), es)
    ensures ValidRun(s, [e] + es) && Final(s, [e] + es) == Final(Next(s, e), es)
  {
    assert ([e] + es)[0] == e && ([e] + es)[1..] == es;
  }

  /** The receiver is off for good exactly when its recovery was forgotten or all blocks have leaked;
      otherwise some run of the worker and the driver turns it on. */
  lemma OffForGoodIff(s: Rx)
    requires Inv(s)
    ensures OffForGood(s) <==> Forgotten(s) || Exhausted(s)
  {
    if Forgotten(s) || Exhausted(s) {
      forall es | ValidRun(s, es) ensures !Final(s, es).on {
        if Forgotten(s) {
          ForgottenIff(s, es);
        } else {
          ExhaustedRun(s, es);
        }
      }
    } else {
      SomeRunTurnsOn(s);
    }
  }

  /** A leaked block is not the driver's either, and with all of them leaked the receiver is off. */
  predicate LeaksOk(s: Rx) { (s.lost == ALL_BLOCKS ==> !s.on) && forall b :: b in s.lost ==> b !in s.owned }

  lemma StepKeepsLeaksOk(s: Rx, e: Step)
    requires Inv(s) && LeaksOk(s) && Enabled(s, e)
    ensures LeaksOk(Next(s, e))
  {
    StepLeak(s, e);
    LeakedNotOwned(s, e);
    if s.lost == ALL_BLOCKS {
      ExhaustedStep(s, e);
    }
  }

  lemma LeakedNotOwned(s: Rx, e: Step)
    requires Inv(s) && Enabled(s, e) && forall b :: b in s.lost ==> b !in s.owned
    ensures forall b :: b in Next(s, e).lost ==> b !in Next(s, e).owned
  {
    forall b | b in Next(s, e).lost ensures b !in Next(s, e).owned {
      assert b in s.free ==> Total(s, b) == 0;
      assert s.worker == Enabling(b) ==> Total(s, b) == 1;
    }
  }

  lemma {:induction false} RunKeepsLeaksOk(s: Rx, es: seq<Step>)
    requires Inv(s) && LeaksOk(s) && ValidRun(s, es)
    ensures LeaksOk(Final(s, es))
    decreases |es|
  {
    if es != [] {
      StepKeepsInv(s, es[0]);
      StepKeepsLeaksOk(s, es[0]);
      RunKeepsLeaksOk(Next(s, es[0]), es[1..]);
    }
  }

  lemma AllLeakedIsEight(lost: set<nat>)
    requires forall b :: b in lost ==> b < BLOCK_COUNT
    ensures lost == ALL_BLOCKS <==> |lost| == BLOCK_COUNT
  {
    AllOrSome(lost);
    assert |ALL_BLOCKS| == BLOCK_COUNT;
    assert |ALL_BLOCKS - lost| == |ALL_BLOCKS| - |lost|;
  }

  /** Over every run from initialisation: reception is off for good exactly when RX_DISABLED fell
      between an enable and the swap back to idle, or eight calls of uart_rx_enable have failed. */
  lemma LostRecovery(s: Rx, block: nat, es: seq<Step>)
    requires Init(s, block) && ValidRun(s, es)
    ensures OffForGood(Final(s, es)) <==> DisabledWhileSettling(s, es) || Failures(s, es) == BLOCK_COUNT
  {
    InitEstablishesInv(s, block);
    RunKeepsInv(s, es);
    var t := Final(s, es);
    OffForGoodIff(t);
    ForgottenIff(s, es);
    EachFailureLeaksOneBlock(s, es);
    AllLeakedIsEight(t.lost);
    RunKeepsLeaksOk(s, es);
  }

  /** No wake-up is lost: unread events, and a stopped receiver whose recovery was not forgotten, always have a
      worker running or due. */
  lemma NoLostWakeUp(s: Rx, es: seq<Step>)
    requires Inv(s) && ValidRun(s, es)
    ensures var t := Final(s, es);
            && (t.queue != [] ==> t.queued || !t.worker.Asleep?)
            && (!t.on && !Forgotten(t) ==> t.recovery.RecoveryOngoing? && (t.queued || !t.worker.Asleep?))
  {
    RunKeepsInv(s, es);
  }

  /** rx_process is submitted by a queued reception, by RX_DISABLED when no recovery is under way, and by
      a recovery that failed, and by nothing else; starting it takes the submission. */
  lemma SubmittedExactly(s: Rx, e: Step)
    requires Inv(s) && Enabled(s, e)
    ensures var submits :=
              || (e.RxRdy? && |s.queue| < 8)
              || (e.RxDisabled? && s.recovery.RecoveryIdle?)
              || (e.Work? && s.worker.Allocating? && s.free == {})
              || (e.Work? && s.worker.Enabling? && !e.ok);
            Next(s, e).queued <==> submits || (s.queued && !(e.Work? && s.worker.Asleep?))
  {
    hide Counted, Stable, Control;
  }

  /** At its end rx_process attempts a recovery if and only if one is under way, whatever has arrived since
      it found the queue empty. */
  lemma RecoveryIsTried(s: Rx, e: Step)
    requires Inv(s) && Enabled(s, e) && e.Work? && s.worker.Recovering?
    ensures var t := Next(s, e);
            && t == s.(worker := t.worker)
            && (t.worker.Allocating? <==> s.recovery.RecoveryOngoing?)
            && (t.worker.Asleep? <==> s.recovery.RecoveryIdle?)
  {
  }

  // ------------------------------------------------------ both losses can happen

  /** Some run from s does or does not hit the window, and does or does not leak every block. */
  ghost predicate CanEnd(s: Rx, forgotten: bool, exhausted: bool) {
    exists es :: ValidRun(s, es) && DisabledWhileSettling(s, es) == forgotten && Exhausted(Final(s, es)) == exhausted
  }

  lemma Prepend(s: Rx, e: Step, forgotten: bool, exhausted: bool)
    requires Shape(s) && Enabled(s, e) && CanEnd(Next(s, e), forgotten, exhausted)
    ensures CanEnd(s, forgotten || (e.RxDisabled? && s.worker.Settling?), exhausted)
  {
    var t := Next(s, e);
    var es :| ValidRun(t, es) && DisabledWhileSettling(t, es) == forgotten && Exhausted(Final(t, es)) == exhausted;
    OneStepMore(s, e, es);
    assert ([e] + es)[0] == e && ([e] + es)[1..] == es;
    assert DisabledWhileSettling(s, [e] + es) == (forgotten || (e.RxDisabled? && s.worker.Settling?));
  }

  /** The receiver is off, nothing is unread, and the worker is due to recover it. */
  predicate Stopped(s: Rx) {
    && Shape(s) && s.worker.Asleep? && s.queued && !s.on && s.owned == map[]
    && s.recovery.RecoveryOngoing? && s.queue == [] && s.free == ALL_BLOCKS - s.lost
  }

  /** The worker about to call uart_rx_enable with block b. */
  function AboutToEnable(s: Rx, b: nat): Rx
    requires b < |s.counter|
  {
    s.(free := s.free - {b}, counter := s.counter[b := 1], queued := false, worker := Enabling(b))
  }

  lemma UpToEnabling(s: Rx, b: nat, forgotten: bool, exhausted: bool)
    requires Stopped(s) && b in s.free && CanEnd(AboutToEnable(s, b), forgotten, exhausted)
    ensures CanEnd(s, forgotten, exhausted)
  {
    hide CanEnd;
    var step := Work(b, true, 0);
    var s1 := s.(queued := false, worker := Polling);
    var s4 := s1.(free := s.free - {b}, worker := Initialising(b));
    Prepend(s4, step, forgotten, exhausted);
    Prepend(s1.(worker := Allocating), step, forgotten, exhausted);
    Prepend(s1.(worker := Recovering), step, forgotten, exhausted);
    Prepend(s1, step, forgotten, exhausted);
    Prepend(s, step, forgotten, exhausted);
  }

  lemma {:induction false} FailuresExhaust(s: Rx)
    requires Stopped(s)
    ensures CanEnd(s, false, true)
    decreases s.free
  {
    if s.free == {} {
      AllOrSome(s.lost);
      assert ValidRun(s, []) && !DisabledWhileSettling(s, []) && Exhausted(Final(s, []));
    } else {
      var b :| b in s.free;
      var t := AboutToEnable(s, b);
      var u := t.(lost := s.lost + {b}, queued := true, worker := Asleep);
      assert u.free == ALL_BLOCKS - u.lost;
      FailuresExhaust(u);
      Prepend(t, Work(b, false, 0), false, true);
      UpToEnabling(s, b, false, true);
    }
  }

  lemma WindowIsReached(s: Rx, b: nat)
    requires Stopped(s) && b in s.free && s.lost != ALL_BLOCKS
    ensures CanEnd(s, true, false)
  {
    var t := AboutToEnable(s, b);
    var u := t.(owned := map[b := 0], on := true, worker := Settling);
    var v := Next(u, BufReleased(b, 0));
    assert v.owned == map[];
    var w := Next(v, RxDisabled);
    assert ValidRun(w, []) && !DisabledWhileSettling(w, []) && !Exhausted(Final(w, []));
    Prepend(v, RxDisabled, false, false);
    Prepend(u, BufReleased(b, 0), true, false);
    assert s.owned[b := 0] == map[b := 0];
    Prepend(t, Work(b, true, 0), true, false);
    UpToEnabling(s, b, true, false);
  }

  /** Both ways to lose reception for good are real: from initialisation some run hits the window, and
      another leaks every block without hitting it. */
  lemma ReceptionCanBeLost(s: Rx, block: nat)
    requires Init(s, block)
    ensures CanEnd(s, true, false) && CanEnd(s, false, true)
  {
    hide CanEnd;
    InitEstablishesInv(s, block);
    var t := Next(s, BufReleased(block, 0));
    var u := Next(t, RxDisabled);
    assert t.owned == map[] && t.free == ALL_BLOCKS - {};
    assert Stopped(u);
    WindowIsReached(u, block);
    FailuresExhaust(u);
    Prepend(t, RxDisabled, true, false);
    Prepend(t, RxDisabled, false, true);
    Prepend(s, BufReleased(block, 0), true, false);
    Prepend(s, BufReleased(block, 0), false, true);
  }

  // ------------------------------------------------------------- the C functions

  /** Some run of worker steps alone leads from s to t and consumes the bytes. */
  ghost predicate WorkerRun(s: Rx, t: Rx, bytes: seq<Byte>) {
    exists es :: ValidRun(s, es) && OnlyWork(es) && Final(s, es) == t && ConsumedBy(s, es) == bytes
  }

  predicate OnlyWork(es: seq<Step>) { forall e :: e in es ==> e.Work? }

  lemma OneStep(s: Rx, e: Step)
    requires Inv(s) && Enabled(s, e) && e.Work?
    ensures WorkerRun(s, Next(s, e), Consumed(s, e)) && Inv(Next(s, e))
  {
    hide Shape, Counted, Stable, Control, Next, Consumed, Enabled;
    StepKeepsInv(s, e);
    var t, es := Next(s, e), [e];
    assert es[0] == e && es[1..] == [];
    assert ValidRun(t, es[1..]) && Final(t, es[1..]) == t && ConsumedBy(t, es[1..]) == [];
    NothingAppended(Consumed(s, e));
    assert ValidRun(s, es);
    assert Final(s, es) == Final(t, es[1..]);
    assert ConsumedBy(s, es) == Consumed(s, e) + ConsumedBy(t, es[1..]);
    assert WorkerRun(s, t, Consumed(s, e)) by {
      assert ValidRun(s, es) && OnlyWork(es) && Final(s, es) == t && ConsumedBy(s, es) == Consumed(s, e);
    }
  }

  /** With the queue drained and nothing leaked, a stopped receiver has a free block. */
  lemma DrainedHasFreeBlock(s: Rx)
    requires Inv(s) && s.worker.Recovering? && s.recovery.RecoveryOngoing? && s.queue == [] && s.lost == {}
    ensures s.free != {}
  {
    assert Total(s, 0) == 0;
  }

  lemma OwnedIsCounted(s: Rx, b: nat)
    requires Inv(s) && b in s.owned
    ensures b < |s.counter| && s.counter[b] >= 1
  {
    assert Total(s, b) >= 1;
  }

  lemma AllocatingIsOff(s: Rx)
    requires Inv(s) && s.worker.Allocating?
    ensures !s.on
  {
  }

  lemma Nowhere(s: Rx)
    ensures WorkerRun(s, s, [])
  {
    assert ValidRun(s, []) && OnlyWork([]) && Final(s, []) == s && ConsumedBy(s, []) == [];
  }

  lemma {:induction false} RunConcat(s: Rx, es: seq<Step>, fs: seq<Step>)
    requires ValidRun(s, es) && ValidRun(Final(s, es), fs)
    ensures ValidRun(s, es + fs) && Final(s, es + fs) == Final(Final(s, es), fs)
    ensures ConsumedBy(s, es + fs) == ConsumedBy(s, es) + ConsumedBy(Final(s, es), fs)
    decreases |es|
  {
    hide Next, Consumed, Shape, Enabled;
    if es == [] {
      assert es + fs == fs;
    } else {
      var t := Next(s, es[0]);
      assert (es + fs)[0] == es[0] && (es + fs)[1..] == es[1..] + fs;
      RunConcat(t, es[1..], fs);
      Associative(Consumed(s, es[0]), ConsumedBy(t, es[1..]), ConsumedBy(Final(s, es), fs));
    }
  }

  lemma Then(s: Rx, t: Rx, u: Rx, b: seq<Byte>, c: seq<Byte>)
    requires WorkerRun(s, t, b) && WorkerRun(t, u, c)
    ensures WorkerRun(s, u, b + c)
  {
    var es :| ValidRun(s, es) && OnlyWork(es) && Final(s, es) == t && ConsumedBy(s, es) == b;
    var fs :| ValidRun(t, fs) && OnlyWork(fs) && Final(t, fs) == u && ConsumedBy(t, fs) == c;
    RunConcat(s, es, fs);
    assert OnlyWork(es + fs);
  }

  lemma OneMoreByte(s: Rx, t: Rx, bytes: seq<Byte>)
    requires Inv(t) && t.worker.Reading? && t.worker.done < t.worker.event.len && WorkerRun(s, t, bytes)
    ensures var u := t.(worker := Reading(t.worker.event, t.worker.done + 1));
            Inv(u) && WorkerRun(s, u, bytes + [t.mem[t.worker.event.ptr + t.worker.done]])
  {
    hide WorkerRun, Counted, Stable, Control;
    var step := Work(0, true, 0);
    OneStep(t, step);
    Then(s, t, Next(t, step), bytes, Consumed(t, step));
  }

  /** The worker's decrement, and the slab call if it was the last reference, make up one rx_buf_unref. */
  lemma UnrefIsTwoSteps(s: Rx, scribble: int)
    requires Inv(s) && s.worker.Reading? && s.worker.done == s.worker.event.len
    ensures var u := Unref(s, BlockOf(s.worker.event.ptr), scribble).(worker := Polling);
            WorkerRun(s, u, []) && Inv(u)
  {
    hide WorkerRun, Counted, Stable, Control;
    var step, b := Work(0, true, scribble), BlockOf(s.worker.event.ptr);
    var t := Next(s, step);
    OneStep(s, step);
    if t.worker.Freeing? {
      assert s.counter[b := scribble] == s.counter[b := 0][b := scribble];
      OneStep(t, step);
      Then(s, t, Next(t, step), [], []);
    }
  }

  /** The receive state of uart_handler.c. free belongs to the slab allocator, the ghost fields to
      the driver and to the worker's program counter. Run to completion, each function takes exactly
      the machine's steps. */
  class Receiver {
    const counter: array<int>
    const mem: array<Byte>
    var free: set<nat>
    var queue: seq<Event>
    var recovery: Recovery
    var queued: bool
    ghost var owned: map<nat, nat>
    ghost var on: bool
    ghost var lost: set<nat>
    ghost var worker: Worker

    /** uart_handler_init: the first rx_enable hands one block to the driver. */
    constructor (block: nat)
      requires block < BLOCK_COUNT
      ensures fresh(counter) && fresh(mem) && Init(View(), block) && Valid()
    {
      counter := new int[8](_ => 1);
      mem := new Byte[4160](_ => 0);
      free := ALL_BLOCKS - {block};
      queue := [];
      recovery := RecoveryIdle;
      queued := false;
      owned := map[block := 0];
      on := true;
      lost := {};
      worker := Asleep;
      new;
      InitEstablishesInv(View(), block);
    }

    ghost function View(): Rx
      reads this, counter, mem
    {
      Rx(counter[..], free, mem[..], owned, on, queue, worker, recovery, queued, lost)
    }

    ghost predicate Valid()
      reads this, counter, mem
    {
      Inv(View()) && (counter as object) != mem
    }

    /** block_start_get */
    static method BlockStartGet(buf: nat) returns (start: nat)
      ensures start <= buf < start + 520
      ensures start == BlockOf(buf) * 520
      ensures forall block: nat :: block * 520 <= buf < block * 520 + 520 ==> start == block * 520
    {
      var blockNum := buf / 520;
      start := blockNum * 520;
    }

    method RxBufAlloc(pick: nat) returns (block: Option<nat>)
      requires |counter[..]| == BLOCK_COUNT && (free != {} ==> pick in free && pick < BLOCK_COUNT)
      modifies this`free, counter
      ensures old(free) == {} ==> block == None && free == {} && counter[..] == old(counter[..])
      ensures old(free) != {} ==>
                block == Some(pick) && free == old(free) - {pick} && counter[..] == old(counter[..])[pick := 1]
    {
      if free == {} {
        return None;
      }
      free := free - {pick};
      counter[pick] := 1;
      return Some(pick);
    }

    method RxBufRef(buf: nat)
      requires BlockOf(buf) < counter.Length
      modifies counter
      ensures counter[..] == old(counter[..])[BlockOf(buf) := old(counter[BlockOf(buf)]) + 1]
    {
      var start := BlockStartGet(buf);
      counter[start / 520] := counter[start / 520] + 1;
    }

    method RxBufUnref(buf: nat, scribble: int)
      requires BlockOf(buf) < counter.Length && (counter as object) != mem
      modifies this`free, counter
      ensures View() == Unref(old(View()), BlockOf(buf), scribble)
    {
      var start := BlockStartGet(buf);
      var block := start / 520;
      var prior := counter[block];
      counter[block] := prior - 1;
      if prior == 1 {
        free := free + {block};
        counter[block] := scribble;
      }
    }

    /** UART_RX_RDY, after the driver has written bytes at the offset. */
    method RxReady(block: nat, offset: nat, bytes: seq<Byte>, scribble: int)
      requires Valid() && Enabled(View(), RxRdy(block, offset, bytes, scribble))
      modifies this, counter, mem
      ensures Valid() && View() == OnRxRdy(old(View()), block, offset, bytes, scribble)
    {
      hide Counted, Stable, Control;
      StepKeepsInv(View(), RxRdy(block, offset, bytes, scribble));
      ghost var s := View();
      OwnedIsCounted(s, block);
      var at := block * 520 + 8 + offset;
      DriverWrites(block, offset, bytes);
      EventAt(block, offset, |bytes|);
      BlockOfExact(block, at);
      RxBufRef(at);
      assert View() == Ref(Written(s, block, offset, bytes), block);
      if |queue| < QUEUE_SIZE {
        queue := queue + [Event(at, |bytes|)];
        queued := true;
      } else {
        RxBufUnref(at, scribble);
      }
    }

    /** The driver fills its buffer by DMA. */
    method DriverWrites(block: nat, offset: nat, bytes: seq<Byte>)
      requires Shape(View()) && block in owned && offset + |bytes| <= BUF_SIZE && (counter as object) != mem
      modifies this`owned, mem
      ensures View() == Written(old(View()), block, offset, bytes)
    {
      var at := block * 520 + 8 + offset;
      forall i | 0 <= i < |bytes| {
        mem[at + i] := bytes[i];
      }
      owned := owned[block := offset + |bytes|];
      assert mem[..] == Written(old(View()), block, offset, bytes).mem;
    }

    /** UART_RX_BUF_REQUEST; accepted is uart_rx_buf_rsp's outcome. */
    method BufferRequested(pick: nat, accepted: bool, scribble: int)
      requires Valid() && Enabled(View(), BufRequest(pick, accepted, scribble))
      modifies this, counter
      ensures Valid() && View() == OnBufRequest(old(View()), pick, accepted, scribble)
    {
      StepKeepsInv(View(), BufRequest(pick, accepted, scribble));
      var block := RxBufAlloc(pick);
      match block {
        case None =>
        case Some(b) =>
          if accepted {
            owned := owned[b := 0];
          } else {
            BlockOfExact(b, b * 520);
            RxBufUnref(b * 520, scribble);
          }
      }
    }

    /** UART_RX_BUF_RELEASED */
    method BufferReleased(block: nat, scribble: int)
      requires Valid() && Enabled(View(), BufReleased(block, scribble))
      modifies this, counter
      ensures Valid() && View() == OnBufReleased(old(View()), block, scribble)
    {
      StepKeepsInv(View(), BufReleased(block, scribble));
      owned := owned - {block};
      BlockOfExact(block, block * 520 + 8);
      RxBufUnref(block * 520 + 8, scribble);
    }

    /** UART_RX_DISABLED */
    method ReceiverDisabled()
      requires Valid() && Enabled(View(), RxDisabled)
      modifies this
      ensures Valid() && View() == OnRxDisabled(old(View()))
    {
      StepKeepsInv(View(), RxDisabled);
      on := false;
      if recovery == RecoveryIdle {
        recovery := RecoveryOngoing;
        queued := true;
      }
    }

    /** rx_buf_alloc as the worker calls it: the slab call, then the counter. */
    method AllocateForRecovery() returns (block: Option<nat>)
      requires Valid() && worker == Allocating
      modifies this, counter
      ensures Valid() && queue == old(queue) && !on && recovery == old(recovery)
      ensures WorkerRun(old(View()), View(), [])
      ensures block.Some? <==> old(free) != {}
      ensures if block.Some? then worker == Enabling(block.value) else worker == Asleep && queued
    {
      hide Counted, Stable, Control;
      var pick := 0;
      if free != {} {
        pick :| pick in free;
      }
      ghost var step := Work(pick, true, 0);
      ghost var s := View();
      AllocatingIsOff(s);
      OneStep(s, step);
      ghost var t := Next(s, step);
      block := RxBufAlloc(pick);
      if block == None {
        queued := true;
        worker := Asleep;
      } else {
        OneStep(t, step);
        Then(s, t, Next(t, step), [], []);
        worker := Enabling(pick);
      }
    }

    /** rx_enable as rx_recovery calls it; enabled is uart_rx_enable's outcome. A block is not given
        back when that fails. */
    method RxEnable(enabled: bool) returns (ok: bool)
      requires Valid() && worker == Allocating
      modifies this, counter
      ensures Valid() && queue == old(queue) && on == ok && recovery == old(recovery)
      ensures worker == if ok then Settling else Asleep
      ensures WorkerRun(old(View()), View(), [])
      ensures ok <==> enabled && old(free) != {}
      ensures !ok ==> queued
    {
      hide Counted, Stable, Control;
      ghost var s := View();
      var block := AllocateForRecovery();
      match block {
        case None => return false;
        case Some(b) =>
          ghost var t := View();
          UartRxEnable(b, enabled);
          Then(s, t, View(), [], []);
          return enabled;
      }
    }

    /** The driver call at the end of rx_enable and what follows from its outcome. */
    method UartRxEnable(block: nat, enabled: bool)
      requires Valid() && worker == Enabling(block)
      modifies this`owned, this`on, this`worker, this`lost, this`queued
      ensures Valid() && on == enabled && (!enabled ==> queued)
      ensures worker == if enabled then Settling else Asleep
      ensures WorkerRun(old(View()), View(), [])
    {
      OneStep(View(), Work(block, enabled, 0));
      if enabled {
        owned := owned[block := 0];
        on := true;
        worker := Settling;
      } else {
        lost := lost + {block};
        queued := true;
        worker := Asleep;
      }
    }

    /** rx_recovery */
    method RxRecovery(enabled: bool)
      requires Valid() && worker == Recovering
      modifies this, counter
      ensures Valid() && worker == Asleep && queue == old(queue)
      ensures WorkerRun(old(View()), View(), [])
      ensures old(recovery.RecoveryOngoing?) ==>
                if enabled && old(free) != {} then on && recovery == RecoveryIdle
                else !on && recovery == RecoveryOngoing && queued
      ensures old(recovery.RecoveryIdle?) ==> on == old(on) && recovery == RecoveryIdle
    {
      hide Counted, Stable, Control, WorkerRun;
      ghost var s := View();
      ghost var step := Work(0, enabled, 0);
      OneStep(s, step);
      if recovery != RecoveryOngoing {
        worker := Asleep;
        return;
      }
      worker := Allocating;
      ghost var t := View();
      var ok := RxEnable(enabled);
      Then(s, t, View(), [], []);
      if ok {
        t := View();
        OneStep(t, step);
        recovery := RecoveryIdle;
        worker := Asleep;
        Then(s, t, View(), [], []);
      }
    }

    /** The byte loop over one event. */
    method ConsumeEvent(event: Event) returns (bytes: seq<Byte>)
      requires Valid() && worker == Reading(event, 0)
      modifies this`worker
      ensures Valid() && worker == Reading(event, event.len)
      ensures bytes == Content(mem[..], event)
      ensures WorkerRun(old(View()), View(), bytes)
    {
      hide WorkerRun, Counted, Stable, Control;
      ghost var s := View();
      ghost var content := Content(mem[..], event);
      bytes := [];
      var i := 0;
      Nowhere(s);
      while i < event.len
        invariant 0 <= i <= event.len && Valid() && worker == Reading(event, i)
        invariant bytes == content[..i]
        invariant WorkerRun(s, View(), bytes)
      {
        OneMoreByte(s, View(), bytes);
        bytes := bytes + [mem[event.ptr + i]];
        i := i + 1;
        worker := Reading(event, i);
      }
    }

    /** rx_buf_unref as rx_process calls it. */
    method DropReference(event: Event, scribble: int)
      requires Valid() && worker == Reading(event, event.len)
      modifies this`free, this`worker, counter
      ensures Valid() && worker == Polling
      ensures WorkerRun(old(View()), View(), [])
    {
      hide Counted, Stable, Control;
      UnrefIsTwoSteps(View(), scribble);
      RxBufUnref(event.ptr, scribble);
      worker := Polling;
    }

    /** One turn of rx_process's loop: take an event, consume it, drop its reference. */
    method ProcessOneEvent(scribble: int) returns (bytes: seq<Byte>)
      requires Valid() && worker == Polling && queue != []
      modifies this, counter
      ensures Valid() && worker == Polling && queue == old(queue)[1..] && mem[..] == old(mem[..])
      ensures on == old(on) && recovery == old(recovery) && lost == old(lost)
      ensures bytes == old(Content(mem[..], queue[0]))
      ensures WorkerRun(old(View()), View(), bytes)
    {
      var event := queue[0];
      hide Counted, Stable, Control;
      ghost var s := View();
      OneStep(s, Work(0, true, 0));
      queue := queue[1..];
      worker := Reading(event, 0);
      ghost var t := View();
      bytes := ConsumeEvent(event);
      Then(s, t, View(), [], bytes);
      t := View();
      DropReference(event, scribble);
      Then(s, t, View(), [] + bytes, []);
      NothingAppended(bytes);
    }

    /** rx_process, uninterrupted: it consumes everything that was pending, leaves the queue empty, and
        restarts a stopped receiver unless blocks have leaked or the driver refuses. */
    method RxProcess(enabled: bool, scribble: int) returns (bytes: seq<Byte>)
      requires Valid() && worker == Asleep && queued
      modifies this, counter
      ensures Valid() && worker == Asleep && queue == []
      ensures bytes == Pending(old(View()))
      ensures WorkerRun(old(View()), View(), bytes)
      ensures old(recovery.RecoveryOngoing? && lost == {}) && enabled ==> on && recovery == RecoveryIdle
    {
      hide Counted, Stable, Control;
      ghost var s := View();
      OneStep(s, Work(0, enabled, scribble));
      queued := false;
      worker := Polling;
      ghost var t := View();
      bytes := DrainQueue(scribble);
      Then(s, t, View(), [], bytes);
      t := View();
      OneStep(t, Work(0, enabled, scribble));
      worker := Recovering;
      NothingAppended(bytes);
      Then(s, t, View(), bytes, []);
      t := View();
      if t.recovery.RecoveryOngoing? && t.lost == {} {
        DrainedHasFreeBlock(t);
      }
      RxRecovery(enabled);
      Then(s, t, View(), bytes, []);
    }

    /** rx_process's outer loop */
    method DrainQueue(scribble: int) returns (bytes: seq<Byte>)
      requires Valid() && worker == Polling
      modifies this, counter
      ensures Valid() && worker == Polling && queue == []
      ensures on == old(on) && recovery == old(recovery) && lost == old(lost)
      ensures bytes == Pending(old(View()))
      ensures WorkerRun(old(View()), View(), bytes)
    {
      hide Counted, Stable, Control;
      ghost var s := View();
      bytes := [];
      Nowhere(s);
      NothingAppended(Pending(s));
      while queue != []
        invariant Valid() && worker == Polling
        invariant on == old(on) && recovery == old(recovery) && lost == old(lost)
        invariant bytes + QueueContent(mem[..], queue) == Pending(s)
        invariant WorkerRun(s, View(), bytes)
        decreases |queue|
      {
        ghost var t := View();
        FirstEvent(t.mem, t.queue);
        var more := ProcessOneEvent(scribble);
        Associative(bytes, more, QueueContent(t.mem, t.queue[1..]));
        Then(s, t, View(), bytes, more);
        bytes := bytes + more;
      }
      NothingAppended(bytes);
    }
  }
}
