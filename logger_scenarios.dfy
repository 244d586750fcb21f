/**
 * End-to-end runs of the logger against the UART-DMA gate, in the way the
 * demo task uses the API: allocate, fill, commit, then let the logger task
 * run the scheduler.
 */
module LoggerScenarios {
  import opened LoggerTypes
  import opened PriorityMask
  import opened LoggerFormat
  import opened UartDma
  import opened Logger

  /** A fresh pool entry after allocation, a fill with `text` and a commit at `tick`. */
  function CommittedEntry(text: seq<Byte>, tick: U32): Entry
    requires |text| <= ENTRY_BUFFER_SIZE
  {
    Stamped(Written(Claimed(EmptyEntry()), text, |text|), tick)
  }

  /**
   * Such an entry is formattable, its first `length` message bytes are
   * exactly the text, so once formatted its wire form is the timestamp
   * prefix followed by exactly the text.
   */
  lemma CommittedEntryWire(text: seq<Byte>, tick: U32)
    requires |text| < ENTRY_BUFFER_SIZE
    ensures var e := CommittedEntry(text, tick);
      && Consistent(e) && e.inUse && !e.isFormatted && Formattable(e)
      && e.timestamp == tick && e.msg[..e.length] == text
      && Wire(FormattedEntry(e)) == TimestampPrefix(tick) + text
  {
    var e := CommittedEntry(text, tick);
    assert e.msg[..e.length] == text;
    ReadyFormWire(e);
  }

  /** A fresh logger after the demo task's allocate, fill and commit of `text`. */
  method CommittedOnce(text: seq<Byte>, tick: U32) returns (ctx: LoggerContext)
    requires |text| < ENTRY_BUFFER_SIZE
    ensures fresh(ctx) && fresh(ctx.highPrioRegistry) && fresh(ctx.regularLogPool)
    ensures fresh(ctx.regularLogQueue)
    ensures ctx.Valid() && ctx.MaskExact() && ctx.highPrioMask == {}
    ensures forall i :: 0 <= i < HIGH_PRIO_LOGS ==> ctx.highPrioRegistry[i] == None
    ensures ctx.logHead == 1 && ctx.logTail == 0 && ctx.QueueContents() == [0]
    ensures ctx.regularLogPool[0] == CommittedEntry(text, tick)
  {
    ctx := new LoggerContext();
    ghost var p0 := ctx.regularLogPool[..];
    assert p0[0] == EmptyEntry();
    var slot := ctx.AllocEntry();
    assert slot == Some(0);
    assert ctx.regularLogPool[..][0] == Claimed(EmptyEntry());
    assert ctx.QueueContents() == [];
    ctx.WriteMessage(0, text, |text|);
    assert ctx.regularLogPool[..][0] == Written(Claimed(EmptyEntry()), text, |text|);
    assert !ctx.QueueFull();
    ctx.CommitEntry(0, tick);
    assert ctx.regularLogPool[..][0] == CommittedEntry(text, tick);
  }

  /**
   * A message committed to a fresh logger at some tick reaches the channel
   * as "[dddddd]" (the tick modulo 10^6) followed by exactly the message; the
   * queue is then empty and the entry free again while the transfer is
   * still in flight.
   */
  method CommitThenSend(text: seq<Byte>, tick: U32)
    returns (wire: seq<Byte>, drained: bool, freed: bool, inFlight: bool)
    requires |text| < ENTRY_BUFFER_SIZE
    ensures wire == TimestampPrefix(tick) + text
    ensures |wire| == PREFIX_SIZE + |text|
    ensures drained && freed && inFlight
  {
    var ctx := CommittedOnce(text, tick);
    var uart := new UartDmaHandler();
    assert !ctx.HighPrioSelected();
    CommittedEntryWire(text, tick);
    ctx.TxScheduler(uart, false);
    assert uart.programmed == [TimestampPrefix(tick) + text];
    wire := uart.programmed[0];
    assert ctx.QueueContents() == [];
    RingEmpty(ctx.regularLogQueue[..], ctx.logHead, ctx.logTail);
    drained := ctx.logHead == ctx.logTail;
    freed := !ctx.regularLogPool[0].inUse;
    inFlight := uart.isBusy;
  }

  /** A channel busy with a transfer of `other`. */
  method BusyChannel(other: seq<Byte>) returns (uart: UartDmaHandler)
    requires 0 < |other| < U16_LIMIT
    ensures fresh(uart) && uart.Valid() && uart.isBusy && uart.programmed == [other]
  {
    uart := new UartDmaHandler();
    var accepted := uart.Transmit(Some(other), |other|, false);
    assert other[..|other|] == other;
  }

  /**
   * A scheduler call on a lone committed entry, with no high-priority work
   * and a busy channel: the entry is formatted in place and stays queued.
   */
  method RefusedWhileBusy(ctx: LoggerContext, uart: UartDmaHandler, text: seq<Byte>, tick: U32)
    requires |text| < ENTRY_BUFFER_SIZE
    requires ctx.Valid() && ctx.highPrioMask == {} && uart.Valid() && uart.isBusy
    requires ctx.QueueContents() == [0] && ctx.regularLogPool[0] == CommittedEntry(text, tick)
    modifies ctx, ctx.highPrioRegistry, ctx.regularLogPool, uart
    ensures ctx.Valid() && ctx.highPrioMask == {} && uart.Valid()
    ensures uart.isBusy == old(uart.isBusy) && uart.programmed == old(uart.programmed)
    ensures uart.completed == old(uart.completed)
    ensures ctx.QueueContents() == [0] && ctx.regularLogPool[0] == FormattedEntry(CommittedEntry(text, tick))
  {
    CommittedEntryWire(text, tick);
    ghost var pool := ctx.regularLogPool[..];
    assert pool[0] == CommittedEntry(text, tick);
    ctx.TxScheduler(uart, false);
    assert ctx.regularLogPool[..] == pool[0 := FormattedEntry(CommittedEntry(text, tick))];
  }

  /**
   * Transfer-complete, then the retry on the idle channel: the formatted
   * head goes out as the timestamp prefix followed by the text, and the
   * queue is drained.
   */
  method SentOnRetry(ctx: LoggerContext, uart: UartDmaHandler, text: seq<Byte>, tick: U32)
    requires |text| < ENTRY_BUFFER_SIZE
    requires ctx.Valid() && ctx.highPrioMask == {} && uart.Valid()
    requires ctx.QueueContents() == [0] && ctx.regularLogPool[0] == FormattedEntry(CommittedEntry(text, tick))
    modifies ctx, ctx.highPrioRegistry, ctx.regularLogPool, uart
    ensures ctx.Valid() && uart.Valid()
    ensures uart.programmed == old(uart.programmed) + [TimestampPrefix(tick) + text]
    ensures ctx.QueueContents() == []
  {
    uart.Channel0IrqHandler(DmaFlags(true, false, false, false));
    CommittedEntryWire(text, tick);
    ghost var e := ctx.regularLogPool[..][0];
    assert e.isFormatted && e.timestamp == tick && e.msg[..e.length] == text;
    ctx.TxScheduler(uart, false);
  }

  /** A lone committed message refused once by a channel busy with `other`. */
  method RefusedOnce(text: seq<Byte>, tick: U32, other: seq<Byte>) returns (ctx: LoggerContext, uart: UartDmaHandler)
    requires |text| < ENTRY_BUFFER_SIZE && 0 < |other| < U16_LIMIT
    ensures fresh(ctx) && fresh(ctx.highPrioRegistry) && fresh(ctx.regularLogPool)
    ensures fresh(ctx.regularLogQueue) && fresh(uart)
    ensures ctx.Valid() && ctx.highPrioMask == {} && uart.Valid() && uart.programmed == [other]
    ensures ctx.QueueContents() == [0] && ctx.regularLogPool[0] == FormattedEntry(CommittedEntry(text, tick))
  {
    ctx := CommittedOnce(text, tick);
    uart := BusyChannel(other);
    RefusedWhileBusy(ctx, uart, text, tick);
  }

  /**
   * A message committed while another transfer is in flight is refused by
   * the busy channel and stays queued, formatted; after transfer-complete
   * the retry sends it as "[dddddd]" followed by exactly the message.
   */
  method RetryAfterBusy(text: seq<Byte>, tick: U32, other: seq<Byte>)
    returns (stillQueued: bool, wire: seq<Byte>, drained: bool)
    requires |text| < ENTRY_BUFFER_SIZE && 0 < |other| < U16_LIMIT
    ensures stillQueued
    ensures wire == TimestampPrefix(tick) + text
    ensures drained
  {
    var ctx, uart := RefusedOnce(text, tick, other);
    RingEmpty(ctx.regularLogQueue[..], ctx.logHead, ctx.logTail);
    stillQueued := ctx.logHead != ctx.logTail;
    SentOnRetry(ctx, uart, text, tick);
    assert uart.programmed == [other, TimestampPrefix(tick) + text];
    wire := uart.programmed[1];
    RingEmpty(ctx.regularLogQueue[..], ctx.logHead, ctx.logTail);
    drained := ctx.logHead == ctx.logTail;
  }

  /** A static high-priority entry after registration and a trigger at `ts`. */
  function TriggeredLiteral(literal: seq<Byte>, ts: U32): Entry
    requires |literal| <= ENTRY_BUFFER_SIZE
  {
    Triggered(Registered(DefineHighPrioEntry(literal)), ts)
  }

  /** Its wire form is the trigger's timestamp prefix followed by the literal. */
  lemma TriggeredLiteralWire(literal: seq<Byte>, ts: U32)
    requires |literal| < ENTRY_BUFFER_SIZE
    ensures var e := TriggeredLiteral(literal, ts);
      && Consistent(e) && e.inUse && Formattable(e)
      && e.timestamp == ts && e.msg[..e.length] == literal
      && Wire(FormattedEntry(e)) == TimestampPrefix(ts) + literal
  {
    ReadyFormWire(TriggeredLiteral(literal, ts));
  }

  /**
   * A fresh logger holding one committed normal entry and a triggered
   * high-priority entry in slot 3, and an idle channel.
   */
  method PendingBoth(literal: seq<Byte>, text: seq<Byte>, tick: U32, ts: U32)
    returns (ctx: LoggerContext, uart: UartDmaHandler)
    requires |literal| < ENTRY_BUFFER_SIZE && |text| < ENTRY_BUFFER_SIZE
    ensures fresh(ctx) && fresh(ctx.highPrioRegistry) && fresh(ctx.regularLogPool)
    ensures fresh(ctx.regularLogQueue) && fresh(uart)
    ensures ctx.Valid() && uart.Valid() && !uart.isBusy && uart.programmed == []
    ensures ctx.highPrioMask == {3} && ctx.highPrioRegistry[3] == Some(TriggeredLiteral(literal, ts))
    ensures ctx.logHead == 1 && ctx.logTail == 0
  {
    ctx := CommittedOnce(text, tick);
    ctx.RegisterHighPrio(3, DefineHighPrioEntry(literal));
    assert ctx.highPrioRegistry[..][3] == Some(Registered(DefineHighPrioEntry(literal)));
    ctx.TriggerHighPrio(3, ts);
    assert ctx.highPrioRegistry[..][3] == Some(TriggeredLiteral(literal, ts));
    uart := new UartDmaHandler();
  }

  /**
   * While a high-priority entry is pending, the scheduler sends it before an
   * older normal entry, and the normal entry is still queued afterwards.
   */
  method HighPriorityFirst(literal: seq<Byte>, text: seq<Byte>, tick: U32, ts: U32)
    returns (first: seq<Byte>, normalStillQueued: bool)
    requires |literal| < ENTRY_BUFFER_SIZE && |text| < ENTRY_BUFFER_SIZE
    ensures first == TimestampPrefix(ts) + literal
    ensures normalStillQueued
  {
    var ctx, uart := PendingBoth(literal, text, tick, ts);
    assert ctx.HighPrioSelected();
    TriggeredLiteralWire(literal, ts);
    ctx.TxScheduler(uart, false);
    assert uart.programmed == [TimestampPrefix(ts) + literal];
    first := uart.programmed[0];
    normalStillQueued := ctx.logHead != ctx.logTail;
  }

  /** Pool entries below n are in use and the others free. */
  ghost predicate FirstInUse(ctx: LoggerContext, n: nat)
    reads ctx, ctx.regularLogPool
  {
    forall j :: 0 <= j < ctx.regularLogPool.Length ==> ctx.regularLogPool[j].inUse == (j < n)
  }

  /** The pool indices 0..n-1 in commit order, one more at a time. */
  lemma UpTo(n: nat)
    ensures seq(n, k => k) + [n] == seq(n + 1, k => k)
  {
  }

  /** One round of the demo task with a queue that still has room. */
  method AllocAndCommit(ctx: LoggerContext, i: nat, tick: U32)
    requires ctx.Valid() && i < QUEUE_SIZE - 1
    requires ctx.logHead == i && ctx.logTail == 0 && FirstInUse(ctx, i)
    modifies ctx, ctx.regularLogPool, ctx.regularLogQueue, ctx.debugBuffer
    ensures ctx.Valid() && ctx.logHead == i + 1 && ctx.logTail == 0 && FirstInUse(ctx, i + 1)
    ensures ctx.QueueContents() == old(ctx.QueueContents()) + [i]
    ensures ctx.debugIdx == old(ctx.debugIdx) && ctx.debugBuffer[..] == old(ctx.debugBuffer[..])
  {
    assert !ctx.regularLogPool[i].inUse;
    ghost var c, p0 := ctx.QueueContents(), ctx.regularLogPool[..];
    assert i !in c;
    var slot := ctx.AllocEntry();
    assert slot == Some(i);
    ghost var p1 := ctx.regularLogPool[..];
    assert ctx.QueueContents() == c;
    assert !ctx.QueueFull();
    ctx.CommitEntry(i, tick);
    assert ctx.regularLogPool[..] == p1[i := Stamped(p1[i], tick)];
    forall j | 0 <= j < QUEUE_SIZE
      ensures ctx.regularLogPool[j].inUse == (j < i + 1)
    {
      assert ctx.regularLogPool[j] == ctx.regularLogPool[..][j];
    }
  }

  /**
   * A fresh logger after LOGGER_LOG_QUEUE_SIZE - 1 allocate-and-commit
   * rounds with no consumer: pool entries 0..30 are queued in the order
   * they were committed and are in use, the last one is free, nothing has
   * been dropped.
   */
  method FilledQueue(tick: U32) returns (ctx: LoggerContext)
    ensures fresh(ctx) && fresh(ctx.regularLogPool) && fresh(ctx.regularLogQueue) && fresh(ctx.debugBuffer)
    ensures ctx.Valid() && ctx.logHead == QUEUE_SIZE - 1 && ctx.logTail == 0 && ctx.debugIdx == 0
    ensures FirstInUse(ctx, QUEUE_SIZE - 1)
    ensures ctx.QueueContents() == seq(QUEUE_SIZE - 1, k => k)
  {
    ctx := new LoggerContext();
    assert ctx.QueueContents() == [];
    var i := 0;
    while i < QUEUE_SIZE - 1
      invariant 0 <= i <= QUEUE_SIZE - 1
      invariant ctx.Valid()
      invariant ctx.logHead == i && ctx.logTail == 0 && ctx.debugIdx == 0
      invariant FirstInUse(ctx, i)
      invariant ctx.QueueContents() == seq(i, k => k)
    {
      AllocAndCommit(ctx, i, tick);
      UpTo(i);
      i := i + 1;
    }
  }

  /**
   * The round after the queue filled up: allocation returns the last pool
   * entry, and the commit drops it, leaving the queue and its order as
   * they were.
   */
  method CommitIntoFullQueue(ctx: LoggerContext, tick: U32)
    returns (slot: Option<nat>, lastDropped: bool, recorded: U32)
    requires ctx.Valid() && ctx.logHead == QUEUE_SIZE - 1 && ctx.logTail == 0 && ctx.debugIdx == 0
    requires FirstInUse(ctx, QUEUE_SIZE - 1)
    modifies ctx, ctx.regularLogPool, ctx.regularLogQueue, ctx.debugBuffer
    ensures slot == Some(QUEUE_SIZE - 1)
    ensures ctx.Valid() && ctx.logHead == old(ctx.logHead) && ctx.logTail == old(ctx.logTail)
    ensures ctx.QueueContents() == old(ctx.QueueContents())
    ensures lastDropped && recorded == tick
  {
    assert !ctx.regularLogPool[QUEUE_SIZE - 1].inUse;
    slot := ctx.AllocEntry();
    assert slot == Some(QUEUE_SIZE - 1);
    assert ctx.QueueFull();
    ctx.CommitEntry(QUEUE_SIZE - 1, tick);
    assert ctx.debugBuffer[..][0] == tick;
    assert !ctx.regularLogPool[..][QUEUE_SIZE - 1].inUse;
    lastDropped := !ctx.regularLogPool[QUEUE_SIZE - 1].inUse;
    recorded := ctx.debugBuffer[0];
  }

  /**
   * The queue holds at most LOGGER_LOG_QUEUE_SIZE - 1 entries while the pool
   * has LOGGER_LOG_QUEUE_SIZE: with no consumer running, the last pool entry
   * can be allocated but its commit drops it, and the debug ring records its
   * timestamp in slot 0. The first LOGGER_LOG_QUEUE_SIZE - 1 entries stay
   * queued in the order they were committed.
   */
  method FillWithoutConsumer(tick: U32)
    returns (queued: nat, lastSlot: Option<nat>, lastDropped: bool, recorded: U32, queuedAfter: nat,
             contents: seq<nat>)
    ensures queued == QUEUE_SIZE - 1
    ensures lastSlot == Some(QUEUE_SIZE - 1)
    ensures lastDropped && recorded == tick
    ensures queuedAfter == QUEUE_SIZE - 1
    ensures contents == seq(QUEUE_SIZE - 1, k => k)
  {
    var ctx := FilledQueue(tick);
    queued := ctx.logHead - ctx.logTail;
    lastSlot, lastDropped, recorded := CommitIntoFullQueue(ctx, tick);
    queuedAfter := ctx.logHead - ctx.logTail;
    contents := Ring(ctx.regularLogQueue[..], ctx.logHead, ctx.logTail);
  }

  /**
   * The channel takes one transfer at a time: a second transmit is refused
   * until transfer-complete, after which one is accepted again; an error
   * interrupt does not release the channel.
   */
  method OneTransferInFlight(a: seq<Byte>, b: seq<Byte>)
    returns (first: bool, second: bool, afterError: bool, afterComplete: bool)
    requires 0 < |a| < U16_LIMIT && 0 < |b| < U16_LIMIT
    ensures first && !second && !afterError && afterComplete
  {
    var uart := new UartDmaHandler();
    first := uart.Transmit(Some(a), |a|, false);
    second := uart.Transmit(Some(b), |b|, false);
    uart.Channel0IrqHandler(DmaFlags(false, false, false, true));
    afterError := uart.Transmit(Some(b), |b|, false);
    uart.Channel0IrqHandler(DmaFlags(true, false, false, false));
    afterComplete := uart.Transmit(Some(b), |b|, false);
  }
}
