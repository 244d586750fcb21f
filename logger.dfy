/**
 * The logger core (logger.c): one context object holding the entry pool, the
 * circular normal queue of pool indices, the high-priority registry with its
 * pending mask, the debug ring and the consumer task's notification count.
 * Every operation runs to completion; the atomic updates of the source are
 * plain updates here.
 */
module Logger {
  import opened LoggerTypes
  import opened PriorityMask
  import opened LoggerFormat
  import opened UartDma

  /* ---------------------------------------------------------------------- */
  /* The circular queue on values                                            */
  /* ---------------------------------------------------------------------- */

  /** The occupied slots of a circular buffer, oldest (tail) first. */
  function Ring(q: seq<nat>, head: nat, tail: nat): seq<nat>
    requires head < |q| && tail < |q|
  {
    if tail <= head then q[tail..head] else q[tail..] + q[..head]
  }

  /** The count of queued entries is (head - tail) mod capacity, below capacity. */
  lemma RingLength(q: seq<nat>, head: nat, tail: nat)
    requires |q| == QUEUE_SIZE && head < |q| && tail < |q|
    ensures |Ring(q, head, tail)| == (head - tail) % QUEUE_SIZE
    ensures |Ring(q, head, tail)| <= |q| - 1
  {
    if tail > head {
      assert (head - tail) % QUEUE_SIZE == head - tail + |q|;
    }
  }

  /** Empty exactly when head == tail. */
  lemma RingEmpty(q: seq<nat>, head: nat, tail: nat)
    requires head < |q| && tail < |q|
    ensures Ring(q, head, tail) == [] <==> head == tail
  {
  }

  /** Full (advancing head would reach tail) exactly when capacity - 1 are queued. */
  lemma RingFull(q: seq<nat>, head: nat, tail: nat)
    requires |q| == QUEUE_SIZE && head < |q| && tail < |q|
    ensures (head + 1) % QUEUE_SIZE == tail <==> |Ring(q, head, tail)| == |q| - 1
  {
    RingLength(q, head, tail);
    if tail > head {
      assert (head - tail) % QUEUE_SIZE == head - tail + |q|;
    } else if head + 1 < |q| {
      assert (head + 1) % QUEUE_SIZE == head + 1;
    } else {
      assert (head + 1) % QUEUE_SIZE == 0;
    }
  }

  /** Advancing a queue index modulo the capacity wraps only from the last slot. */
  lemma NextIndex(i: nat)
    requires i < QUEUE_SIZE
    ensures (i + 1) % QUEUE_SIZE == if i + 1 < QUEUE_SIZE then i + 1 else 0
  {
  }

  /** Storing at head and advancing it appends to the contents. */
  lemma RingPush(q: seq<nat>, head: nat, tail: nat, x: nat)
    requires |q| == QUEUE_SIZE && head < |q| && tail < |q| && (head + 1) % QUEUE_SIZE != tail
    ensures (head + 1) % QUEUE_SIZE < |q|
    ensures Ring(q[head := x], (head + 1) % QUEUE_SIZE, tail) == Ring(q, head, tail) + [x]
  {
    NextIndex(head);
    var q' := q[head := x];
    if head + 1 < QUEUE_SIZE {
      if tail <= head {
        assert q'[tail..head + 1] == q[tail..head] + [x];
      } else {
        assert q'[tail..] == q[tail..];
        assert q'[..head + 1] == q[..head] + [x];
        assert Ring(q', head + 1, tail) == q[tail..] + (q[..head] + [x]);
      }
    } else {
      assert q'[..0] == [];
      assert q'[tail..] == q[tail..head] + [x];
    }
  }

  /** Reading at tail and advancing it removes the oldest element. */
  lemma RingPop(q: seq<nat>, head: nat, tail: nat)
    requires |q| == QUEUE_SIZE && head < |q| && tail < |q| && head != tail
    ensures (tail + 1) % QUEUE_SIZE < |q|
    ensures Ring(q, head, tail) != [] && Ring(q, head, tail)[0] == q[tail]
    ensures Ring(q, head, (tail + 1) % QUEUE_SIZE) == Ring(q, head, tail)[1..]
  {
    NextIndex(tail);
    if tail + 1 < QUEUE_SIZE {
      if tail < head {
        assert q[tail + 1..head] == q[tail..head][1..];
      } else {
        assert q[tail + 1..] == q[tail..][1..];
        assert (q[tail..] + q[..head])[1..] == q[tail..][1..] + q[..head];
      }
    } else {
      assert q[tail..] == [q[tail]];
      assert q[0..head] == q[..head];
    }
  }

  /* ---------------------------------------------------------------------- */
  /* Invariants on values                                                    */
  /* ---------------------------------------------------------------------- */

  /**
   * Every queued pool index refers to an entry in use, no index is queued
   * twice, and an entry outside the queue is never marked formatted.
   */
  ghost predicate QueueInvariant(c: seq<nat>, pool: seq<Entry>)
  {
    && (forall k :: 0 <= k < |c| ==> c[k] < |pool| && pool[c[k]].inUse)
    && (forall a, b :: 0 <= a < b < |c| ==> c[a] != c[b])
    && (forall i :: 0 <= i < |pool| && i !in c ==> !pool[i].isFormatted)
  }

  /** Registry slot i holds an entry that is in use (has unsent content). */
  predicate BoundAndInUse(reg: seq<Option<Entry>>, i: nat)
  {
    i < |reg| && reg[i].Some? && reg[i].value.inUse
  }

  /**
   * The mask only has bits 0..K-1 (so the scheduler's index always falls in
   * the registry), bound entries are consistent, and a bound entry in use
   * always has its pending bit set.
   */
  ghost predicate RegistryInvariant(reg: seq<Option<Entry>>, mask: Mask)
  {
    && |reg| == HIGH_PRIO_LOGS
    && (forall i | i in mask :: i < HIGH_PRIO_LOGS)
    && (forall i :: 0 <= i < |reg| && reg[i].Some? ==> Consistent(reg[i].value))
    && (forall i :: 0 <= i < |reg| && BoundAndInUse(reg, i) ==> i in mask)
  }

  /** The converse: a set bit always belongs to a bound entry in use. */
  ghost predicate MaskMatchesRegistry(reg: seq<Option<Entry>>, mask: Mask)
  {
    forall i | i in mask :: BoundAndInUse(reg, i)
  }

  /**
   * An entry as the context stores it: the sizes of Logger_Entry_T, and an
   * entry marked formatted carries the prefix its own timestamp formats to.
   */
  ghost predicate Consistent(e: Entry)
  {
    WellFormed(e) && (e.isFormatted ==> e.prefix == TimestampPrefix(e.timestamp))
  }

  /** Every entry of the pool is consistent. */
  ghost predicate PoolWellFormed(pool: seq<Entry>)
  {
    forall i :: 0 <= i < |pool| ==> Consistent(pool[i])
  }

  /**
   * Rewriting one pool entry keeps the pool and queue invariants when the
   * new entry is consistent, stays in use while queued, and is unformatted
   * while not queued.
   */
  lemma PoolUpdate(c: seq<nat>, pool: seq<Entry>, slot: nat, e: Entry)
    requires PoolWellFormed(pool) && QueueInvariant(c, pool) && slot < |pool|
    requires Consistent(e)
    requires slot in c ==> e.inUse
    requires slot !in c ==> !e.isFormatted
    ensures PoolWellFormed(pool[slot := e]) && QueueInvariant(c, pool[slot := e])
  {
  }

  /** Queuing an unqueued entry in use keeps the queue invariant. */
  lemma QueuePush(c: seq<nat>, pool: seq<Entry>, slot: nat)
    requires QueueInvariant(c, pool) && slot < |pool| && pool[slot].inUse && slot !in c
    ensures QueueInvariant(c + [slot], pool)
  {
    var c' := c + [slot];
    forall i | 0 <= i < |pool| && i !in c'
      ensures !pool[i].isFormatted
    {
      assert i !in c;
    }
  }

  /** Dequeuing the head and releasing it keeps the queue invariant. */
  lemma QueuePop(c: seq<nat>, pool: seq<Entry>, e: Entry)
    requires QueueInvariant(c, pool) && c != [] && !e.isFormatted
    ensures QueueInvariant(c[1..], pool[c[0] := e])
  {
    var c', pool' := c[1..], pool[c[0] := e];
    forall k | 0 <= k < |c'|
      ensures c'[k] < |pool'| && pool'[c'[k]].inUse
    {
      assert c'[k] == c[k + 1] != c[0];
    }
  }

  /**
   * Rewriting one registry slot keeps the registry invariant when the new
   * entry is consistent and, if in use, has its bit in the new mask, and the
   * new mask differs from the old one only at that slot.
   */
  lemma RegistryUpdate(reg: seq<Option<Entry>>, mask: Mask, i: nat, e: Entry, mask': Mask)
    requires RegistryInvariant(reg, mask) && i < |reg| && Consistent(e)
    requires mask' == mask + {i} || mask' == mask || (mask' == mask - {i} && !e.inUse)
    requires e.inUse ==> i in mask'
    ensures RegistryInvariant(reg[i := Some(e)], mask')
  {
  }

  /** Clearing the bit of a slot that is unbound or not in use keeps the invariant. */
  lemma RegistryDropStale(reg: seq<Option<Entry>>, mask: Mask, i: nat)
    requires RegistryInvariant(reg, mask) && !BoundAndInUse(reg, i)
    ensures RegistryInvariant(reg, mask - {i})
  {
  }

  /** The same for the exact form of the mask. */
  lemma MaskMatchesUpdate(reg: seq<Option<Entry>>, mask: Mask, i: nat, e: Entry, mask': Mask)
    requires MaskMatchesRegistry(reg, mask) && i < |reg|
    requires mask' == mask + {i} || mask' == mask || mask' == mask - {i}
    requires i in mask' ==> e.inUse
    ensures MaskMatchesRegistry(reg[i := Some(e)], mask')
  {
  }

  /* ---------------------------------------------------------------------- */
  /* Entry transitions                                                       */
  /* ---------------------------------------------------------------------- */

  /** logger_alloc_entry on the claimed entry. */
  function Claimed(e: Entry): Entry
  {
    e.(inUse := true, isFormatted := false, prefix := Zeros(PREFIX_SIZE))
  }

  /** The producer's fill: text at the start of msg, and the length field set. */
  function Written(e: Entry, text: seq<Byte>, length: U32): Entry
    requires |text| <= |e.msg|
  {
    e.(msg := text + e.msg[|text|..], length := length)
  }

  /** logger_commit_entry before queuing. */
  function Stamped(e: Entry, tick: U32): Entry
  {
    e.(timestamp := tick, isFormatted := false)
  }

  /** The entry returned to the free state, after a send or a drop. */
  function Released(e: Entry): Entry
  {
    e.(inUse := false, isFormatted := false)
  }

  /** logger_trigger_highprio on a bound entry; `length` is not restored. */
  function Triggered(e: Entry, timestamp: U32): Entry
  {
    e.(prefix := Zeros(PREFIX_SIZE), timestamp := timestamp, inUse := true, isFormatted := false)
  }

  /** logger_register_highprio on the entry it binds. */
  function Registered(e: Entry): Entry
  {
    e.(baseLength := e.length, inUse := false, isFormatted := false)
  }

  /** The entry the normal path transmits: formatted once, never twice. */
  function ReadyForm(e: Entry): Entry
    requires |e.prefix| == PREFIX_SIZE
  {
    if e.isFormatted then e else FormattedEntry(e)
  }

  /**
   * Formatting gives a consistent entry its own timestamp's prefix, so the
   * entry the scheduler sends, whether formatted now or on an earlier
   * attempt, goes out as that prefix followed by its first `length` message
   * bytes.
   */
  lemma ReadyFormWire(e: Entry)
    requires Consistent(e)
    ensures Consistent(FormattedEntry(e)) && Consistent(ReadyForm(e))
    ensures ReadyForm(e).isFormatted <==> e.isFormatted || Formattable(e)
    ensures ReadyForm(e).inUse == e.inUse && FormattedEntry(e).inUse == e.inUse
    ensures Formattable(e) ==>
      Wire(FormattedEntry(e)) == TimestampPrefix(e.timestamp) + e.msg[..e.length]
    ensures ReadyForm(e).isFormatted ==>
      Wire(ReadyForm(e)) == TimestampPrefix(e.timestamp) + e.msg[..e.length]
  {
    var f := FormattedEntry(e);
    assert f.prefix == TimestampPrefix(e.timestamp);
  }

  /**
   * The scheduler's call of UartDma_Transmit for a ready entry: the address
   * of prefix[0] with size length + LOGGER_PREFIX_SIZE. An entry that is not
   * ready is not offered.
   */
  method OfferToChannel(uart: UartDmaHandler, isReady: bool, f: Entry, exclusiveFails: bool)
    returns (isSent: bool)
    requires uart.Valid() && WellFormed(f) && (isReady ==> Formattable(f))
    modifies uart
    ensures uart.Valid() && uart.completed == old(uart.completed)
    ensures isSent <==> isReady && !old(uart.isBusy) && !exclusiveFails
    ensures uart.isBusy == (old(uart.isBusy) || isSent)
    ensures uart.programmed == old(uart.programmed) + (if isSent then [Wire(f)] else [])
  {
    isSent := false;
    if isReady {
      TransmitRegionIsWire(f);
      isSent := uart.Transmit(Some(f.prefix + f.msg), (f.length + PREFIX_SIZE) % U16_LIMIT, exclusiveFails);
    }
  }

  /* ---------------------------------------------------------------------- */
  /* The context                                                             */
  /* ---------------------------------------------------------------------- */

  /** Logger_Context_T */
  class LoggerContext {
    var highPrioMask: Mask
    const highPrioRegistry: array<Option<Entry>>
    const regularLogPool: array<Entry>
    /** Pool indices; only the slots between tail and head are meaningful. */
    const regularLogQueue: array<nat>
    var logHead: nat
    var logTail: nat
    const debugBuffer: array<U32>
    var debugIdx: U16
    /** Pending xTaskNotifyGive signals to the logger task. */
    var notifications: nat

    /** Array sizes and in-range queue indices. */
    ghost predicate QueueShape()
      reads this`logHead, this`logTail
    {
      && regularLogQueue.Length == QUEUE_SIZE
      && logHead < QUEUE_SIZE && logTail < QUEUE_SIZE
    }

    /** The queued pool indices, oldest first. */
    ghost function QueueContents(): seq<nat>
      reads this`logHead, this`logTail, regularLogQueue
      requires QueueShape()
    {
      Ring(regularLogQueue[..], logHead, logTail)
    }

    /** The pool and the normal queue. */
    ghost predicate QueueValid()
      reads this`logHead, this`logTail, regularLogPool, regularLogQueue
    {
      && QueueShape()
      && regularLogPool.Length == QUEUE_SIZE
      && PoolWellFormed(regularLogPool[..])
      && QueueInvariant(QueueContents(), regularLogPool[..])
    }

    /** The high-priority registry and its pending mask. */
    ghost predicate RegistryValid()
      reads this`highPrioMask, highPrioRegistry
    {
      && highPrioRegistry.Length == HIGH_PRIO_LOGS
      && RegistryInvariant(highPrioRegistry[..], highPrioMask)
    }

    ghost predicate Valid()
      reads this`logHead, this`logTail, this`highPrioMask
      reads highPrioRegistry, regularLogPool, regularLogQueue
    {
      && QueueValid()
      && RegistryValid()
      && debugBuffer.Length == DEBUG_BUFFER_SIZE
    }

    ghost predicate MaskExact()
      reads this`highPrioMask, highPrioRegistry
    {
      MaskMatchesRegistry(highPrioRegistry[..], highPrioMask)
    }

    ghost predicate QueueFull()
      reads this`logHead, this`logTail
    {
      (logHead + 1) % QUEUE_SIZE == logTail
    }

    /** LOGGER_CONTEXT_INIT */
    constructor ()
      ensures Valid() && MaskExact()
      ensures fresh(highPrioRegistry) && fresh(regularLogPool)
      ensures fresh(regularLogQueue) && fresh(debugBuffer)
      ensures highPrioMask == {}
      ensures forall i :: 0 <= i < HIGH_PRIO_LOGS ==> highPrioRegistry[i] == None
      ensures forall i :: 0 <= i < QUEUE_SIZE ==> regularLogPool[i] == EmptyEntry()
      ensures logHead == 0 && logTail == 0 && QueueContents() == []
      ensures debugIdx == 0 && forall i :: 0 <= i < DEBUG_BUFFER_SIZE ==> debugBuffer[i] == 0
      ensures notifications == 0
    {
      highPrioMask := {};
      highPrioRegistry := new Option<Entry>[HIGH_PRIO_LOGS](_ => None);
      regularLogPool := new Entry[QUEUE_SIZE](_ => EmptyEntry());
      regularLogQueue := new nat[QUEUE_SIZE](_ => 0);
      logHead, logTail := 0, 0;
      debugBuffer := new U32[DEBUG_BUFFER_SIZE](_ => 0);
      debugIdx := 0;
      notifications := 0;
      new;
      RingEmpty(regularLogQueue[..], 0, 0);
    }

    /**
     * logger_alloc_entry: claims the lowest-indexed free pool entry, or
     * returns None (NULL) with nothing changed when every entry is in use.
     */
    method AllocEntry() returns (slot: Option<nat>)
      requires Valid()
      modifies regularLogPool
      ensures Valid()
      ensures slot.None? <==> forall i :: 0 <= i < QUEUE_SIZE ==> old(regularLogPool[i]).inUse
      ensures slot.None? ==> regularLogPool[..] == old(regularLogPool[..])
      ensures slot.Some? ==>
        && slot.value < QUEUE_SIZE
        && !old(regularLogPool[slot.value]).inUse
        && (forall j :: 0 <= j < slot.value ==> old(regularLogPool[j]).inUse)
        && regularLogPool[..] == old(regularLogPool[..])[slot.value := Claimed(old(regularLogPool[slot.value]))]
    {
      var i := 0;
      while i < QUEUE_SIZE
        invariant 0 <= i <= QUEUE_SIZE
        invariant forall j :: 0 <= j < i ==> regularLogPool[j].inUse
        invariant regularLogPool[..] == old(regularLogPool[..])
      {
        if !regularLogPool[i].inUse {
          ghost var pool := regularLogPool[..];
          regularLogPool[i] := Claimed(regularLogPool[i]);
          assert regularLogPool[..] == pool[i := Claimed(pool[i])];
          return Some(i);
        }
        i := i + 1;
      }
      return None;
    }

    /**
     * The producer filling an allocated entry through the returned pointer:
     * the text is copied to the start of the message buffer and the length
     * field is set (to any value; the scheduler checks it when formatting).
     */
    method WriteMessage(slot: nat, text: seq<Byte>, length: U32)
      requires Valid()
      requires slot < QUEUE_SIZE && regularLogPool[slot].inUse && slot !in QueueContents()
      requires |text| <= ENTRY_BUFFER_SIZE
      modifies regularLogPool
      ensures Valid()
      ensures regularLogPool[..] == old(regularLogPool[..])[slot := Written(old(regularLogPool[slot]), text, length)]
    {
      regularLogPool[slot] := Written(regularLogPool[slot], text, length);
    }

    /**
     * logger_debug_push: stores the value at the 16-bit write index modulo
     * the ring size and advances the index, wrapping at 2^16.
     */
    method DebugPush(value: U32)
      requires Valid()
      modifies this`debugIdx, debugBuffer
      ensures Valid()
      ensures debugIdx == (old(debugIdx) + 1) % U16_LIMIT
      ensures debugBuffer[..] == old(debugBuffer[..])[old(debugIdx) % DEBUG_BUFFER_SIZE := value]
    {
      var idx := debugIdx;
      debugIdx := (debugIdx + 1) % U16_LIMIT;
      debugBuffer[idx % DEBUG_BUFFER_SIZE] := value;
    }

    /**
     * enqueue_normal_log: appends the entry's index when the queue has room;
     * otherwise drops the entry (frees it) and records its timestamp in the
     * debug ring.
     */
    method EnqueueNormalLog(slot: nat)
      requires Valid()
      requires slot < QUEUE_SIZE && regularLogPool[slot].inUse && slot !in QueueContents()
      modifies this`logHead, this`debugIdx, regularLogPool, regularLogQueue, debugBuffer
      ensures Valid()
      ensures !old(QueueFull()) ==>
        && QueueContents() == old(QueueContents()) + [slot]
        && logHead == (old(logHead) + 1) % QUEUE_SIZE
        && regularLogPool[..] == old(regularLogPool[..])
        && debugIdx == old(debugIdx) && debugBuffer[..] == old(debugBuffer[..])
      ensures old(QueueFull()) ==>
        && QueueContents() == old(QueueContents())
        && logHead == old(logHead) && regularLogQueue[..] == old(regularLogQueue[..])
        && regularLogPool[..] == old(regularLogPool[..])[slot := Released(old(regularLogPool[slot]))]
        && debugIdx == (old(debugIdx) + 1) % U16_LIMIT
        && debugBuffer[..] == old(debugBuffer[..])[old(debugIdx) % DEBUG_BUFFER_SIZE := old(regularLogPool[slot]).timestamp]
    {
      ghost var c, pool := QueueContents(), regularLogPool[..];
      var next := (logHead + 1) % QUEUE_SIZE;
      if next != logTail {
        RingPush(regularLogQueue[..], logHead, logTail, slot);
        QueuePush(c, pool, slot);
        regularLogQueue[logHead] := slot;
        logHead := next;
        assert QueueContents() == c + [slot];
      } else {
        var e := regularLogPool[slot];
        DebugPush(e.timestamp);
        PoolUpdate(c, pool, slot, Released(e));
        regularLogPool[slot] := Released(e);
        assert regularLogPool[..] == pool[slot := Released(e)];
      }
    }

    /**
     * logger_commit_entry: stamps the entry with the tick count, clears its
     * formatted flag, queues it (or drops it when full) and notifies the
     * logger task.
     */
    method CommitEntry(slot: nat, tick: U32)
      requires Valid()
      requires slot < QUEUE_SIZE && regularLogPool[slot].inUse && slot !in QueueContents()
      modifies this`logHead, this`debugIdx, this`notifications, regularLogPool, regularLogQueue, debugBuffer
      ensures Valid()
      ensures notifications == old(notifications) + 1
      ensures !old(QueueFull()) ==>
        && QueueContents() == old(QueueContents()) + [slot]
        && logHead == (old(logHead) + 1) % QUEUE_SIZE
        && regularLogPool[..] == old(regularLogPool[..])[slot := Stamped(old(regularLogPool[slot]), tick)]
        && debugIdx == old(debugIdx) && debugBuffer[..] == old(debugBuffer[..])
      ensures old(QueueFull()) ==>
        && QueueContents() == old(QueueContents()) && logHead == old(logHead)
        && regularLogPool[..] == old(regularLogPool[..])[slot := Released(Stamped(old(regularLogPool[slot]), tick))]
        && debugIdx == (old(debugIdx) + 1) % U16_LIMIT
        && debugBuffer[..] == old(debugBuffer[..])[old(debugIdx) % DEBUG_BUFFER_SIZE := tick]
    {
      ghost var c, pool := QueueContents(), regularLogPool[..];
      ghost var full := QueueFull();
      var e := Stamped(regularLogPool[slot], tick);
      PoolUpdate(c, pool, slot, e);
      regularLogPool[slot] := e;
      ghost var stamped := regularLogPool[..];
      assert stamped == pool[slot := e];
      EnqueueNormalLog(slot);
      if full {
        assert regularLogPool[..] == stamped[slot := Released(e)] == pool[slot := Released(e)];
      } else {
        assert regularLogPool[..] == stamped;
      }
      notifications := notifications + 1;
    }

    /**
     * dequeue_normal_log: None (NULL) when head == tail; otherwise the
     * oldest queued index, with tail advanced modulo the capacity.
     */
    method DequeueNormalLog() returns (slot: Option<nat>)
      requires QueueShape()
      modifies this`logTail
      ensures QueueShape()
      ensures slot.None? <==> old(logHead == logTail)
      ensures slot.None? ==> logTail == old(logTail)
      ensures slot.Some? ==>
        && slot.value == old(QueueContents())[0] == regularLogQueue[old(logTail)]
        && QueueContents() == old(QueueContents())[1..]
        && logTail == (old(logTail) + 1) % QUEUE_SIZE
    {
      if logTail == logHead {
        return None;
      }
      RingPop(regularLogQueue[..], logHead, logTail);
      var e := regularLogQueue[logTail];
      logTail := (logTail + 1) % QUEUE_SIZE;
      return Some(e);
    }

    /** peek_normal_log: what dequeue_normal_log would return, changing nothing. */
    method PeekNormalLog() returns (slot: Option<nat>)
      requires QueueShape()
      ensures slot.None? <==> logHead == logTail
      ensures slot.None? <==> QueueContents() == []
      ensures slot.Some? ==> slot.value == QueueContents()[0] == regularLogQueue[logTail]
    {
      RingEmpty(regularLogQueue[..], logHead, logTail);
      if logTail == logHead {
        return None;
      }
      RingPop(regularLogQueue[..], logHead, logTail);
      return Some(regularLogQueue[logTail]);
    }

    /**
     * logger_trigger_highprio: a no-op for an index outside the registry or
     * an unbound slot; otherwise the bound entry gets a zeroed prefix, the
     * timestamp and in_use, its pending bit is set and the task notified.
     */
    method TriggerHighPrio(idx: U8, timestamp: U32)
      requires Valid()
      modifies this`highPrioMask, this`notifications, highPrioRegistry
      ensures Valid()
      ensures old(MaskExact()) ==> MaskExact()
      ensures idx >= HIGH_PRIO_LOGS || old(highPrioRegistry[idx]).None? ==>
        && highPrioMask == old(highPrioMask)
        && highPrioRegistry[..] == old(highPrioRegistry[..])
        && notifications == old(notifications)
      ensures idx < HIGH_PRIO_LOGS && old(highPrioRegistry[idx]).Some? ==>
        && highPrioRegistry[..] == old(highPrioRegistry[..])[idx := Some(Triggered(old(highPrioRegistry[idx]).value, timestamp))]
        && highPrioMask == old(highPrioMask) + {idx}
        && notifications == old(notifications) + 1
    {
      if idx >= HIGH_PRIO_LOGS {
        return;
      }
      var entry := highPrioRegistry[idx];
      if entry.None? {
        return;
      }
      ghost var reg, mask := highPrioRegistry[..], highPrioMask;
      var e := Triggered(entry.value, timestamp);
      RegistryUpdate(reg, mask, idx, e, mask + {idx});
      if MaskExact() {
        MaskMatchesUpdate(reg, mask, idx, e, mask + {idx});
      }
      highPrioRegistry[idx] := Some(e);
      highPrioMask := highPrioMask + {idx};
      assert highPrioRegistry[..] == reg[idx := Some(e)];
      notifications := notifications + 1;
    }

    /**
     * logger_register_highprio: for an index inside the registry, binds the
     * entry with base_length = length and both flags cleared; otherwise does
     * nothing. The pending mask is not touched.
     */
    method RegisterHighPrio(idx: U8, entry: Entry)
      requires Valid()
      requires |entry.prefix| == PREFIX_SIZE && |entry.msg| == ENTRY_BUFFER_SIZE
      modifies highPrioRegistry
      ensures Valid()
      ensures idx < HIGH_PRIO_LOGS ==>
        highPrioRegistry[..] == old(highPrioRegistry[..])[idx := Some(Registered(entry))]
      ensures idx >= HIGH_PRIO_LOGS ==> highPrioRegistry[..] == old(highPrioRegistry[..])
      ensures old(MaskExact()) && idx !in highPrioMask ==> MaskExact()
    {
      if idx < HIGH_PRIO_LOGS {
        highPrioRegistry[idx] := Some(Registered(entry));
      }
    }

    /** The highest pending bit belongs to a bound entry in use. */
    ghost predicate HighPrioSelected()
      reads this`highPrioMask, highPrioRegistry
    {
      highPrioMask != {} && BoundAndInUse(highPrioRegistry[..], HighestSetBit(highPrioMask))
    }

    /**
     * The high-priority path's effect on the selected slot i: its entry is
     * formatted; it is sent when formatting succeeds, the channel is idle and
     * the exclusive store succeeds, and then the channel carries the prefix
     * of its timestamp followed by its message; a sent entry is released and
     * its bit cleared, an unsent one stays pending and the task is notified.
     */
    twostate predicate HighPrioServed(uart: UartDmaHandler, exclusiveFails: bool)
      reads this, highPrioRegistry, uart
      requires old(RegistryValid()) && old(HighPrioSelected())
    {
      var m, reg := old(highPrioMask), old(highPrioRegistry[..]);
      var i := HighestSetBit(m);
      var e := reg[i].value;
      var f := FormattedEntry(e);
      var sent := Formattable(e) && !old(uart.isBusy) && !exclusiveFails;
      && highPrioRegistry[..] == reg[i := Some(if sent then Released(f) else f)]
      && highPrioMask == (if sent then m - {i} else m)
      && notifications == old(notifications) + (if sent then 0 else 1)
      && uart.isBusy == (old(uart.isBusy) || sent)
      && uart.programmed == old(uart.programmed) +
           (if sent then [TimestampPrefix(e.timestamp) + e.msg[..e.length]] else [])
    }

    /**
     * The normal path's effect: nothing with an empty queue; otherwise the
     * head entry is formatted unless it already is, and is sent under the
     * same conditions, on a retry as on the first attempt as the prefix of
     * its timestamp followed by its message; a sent entry is dequeued and
     * released, an unsent one stays at the head and the task is notified.
     */
    twostate predicate NormalQueueServed(uart: UartDmaHandler, exclusiveFails: bool)
      reads this, regularLogPool, regularLogQueue, uart
      requires old(QueueValid())
    {
      && (old(QueueContents()) == [] ==>
            && logTail == old(logTail)
            && regularLogPool[..] == old(regularLogPool[..])
            && notifications == old(notifications)
            && uart.isBusy == old(uart.isBusy) && uart.programmed == old(uart.programmed))
      && (old(QueueContents()) != [] ==>
            var slot := old(QueueContents())[0];
            var e := old(regularLogPool[slot]);
            var f := ReadyForm(e);
            var sent := (e.isFormatted || Formattable(e)) && !old(uart.isBusy) && !exclusiveFails;
            && QueueShape()
            && QueueContents() == (if sent then old(QueueContents())[1..] else old(QueueContents()))
            && regularLogPool[..] == old(regularLogPool[..])[slot := if sent then Released(f) else f]
            && notifications == old(notifications) + (if sent then 0 else 1)
            && uart.isBusy == (old(uart.isBusy) || sent)
            && uart.programmed == old(uart.programmed) +
                 (if sent then [TimestampPrefix(e.timestamp) + e.msg[..e.length]] else []))
    }

    /**
     * Part 1 of logger_tx_scheduler. Returns whether the high-priority path
     * handled this call (a bound entry in use was selected); a stale bit is
     * cleared and the call falls through.
     */
    method ServeHighPrio(uart: UartDmaHandler, exclusiveFails: bool) returns (served: bool)
      requires RegistryValid() && uart.Valid()
      modifies this`highPrioMask, this`notifications, highPrioRegistry, uart
      ensures RegistryValid() && uart.Valid() && uart.completed == old(uart.completed)
      ensures old(MaskExact()) ==> MaskExact()
      ensures served == old(HighPrioSelected())
      ensures served ==> HighPrioServed(uart, exclusiveFails)
      ensures !served ==>
        && highPrioRegistry[..] == old(highPrioRegistry[..])
        && highPrioMask == (if old(highPrioMask) == {} then {} else old(highPrioMask) - {HighestSetBit(old(highPrioMask))})
        && notifications == old(notifications)
        && uart.isBusy == old(uart.isBusy) && uart.programmed == old(uart.programmed)
    {
      var pending := highPrioMask;
      if pending == {} {
        return false;
      }
      var idx := HighestSetBit(pending);
      var bound := highPrioRegistry[idx];
      if bound.Some? && bound.value.inUse {
        ghost var reg, mask := highPrioRegistry[..], highPrioMask;
        var ok, f := FormatLogEntry(bound.value);
        FormatEffect(bound.value);
        ReadyFormWire(bound.value);
        var isSent := OfferToChannel(uart, ok, f, exclusiveFails);
        if isSent {
          RegistryUpdate(reg, mask, idx, Released(f), mask - {idx});
          if MaskExact() {
            MaskMatchesUpdate(reg, mask, idx, Released(f), mask - {idx});
          }
          highPrioRegistry[idx] := Some(Released(f));
          highPrioMask := highPrioMask - {idx};
          assert highPrioRegistry[..] == reg[idx := Some(Released(f))];
        } else {
          RegistryUpdate(reg, mask, idx, f, mask);
          if MaskExact() {
            MaskMatchesUpdate(reg, mask, idx, f, mask);
          }
          highPrioRegistry[idx] := Some(f);
          assert highPrioRegistry[..] == reg[idx := Some(f)];
          notifications := notifications + 1;
        }
        return true;
      }
      RegistryDropStale(highPrioRegistry[..], highPrioMask, idx);
      highPrioMask := highPrioMask - {idx};
      return false;
    }

    /** Part 2 of logger_tx_scheduler: serve the head of the normal queue. */
    method ServeNormalQueue(uart: UartDmaHandler, exclusiveFails: bool)
      requires QueueValid() && uart.Valid()
      modifies this`logTail, this`notifications, regularLogPool, uart
      ensures QueueValid() && uart.Valid() && uart.completed == old(uart.completed)
      ensures NormalQueueServed(uart, exclusiveFails)
    {
      var head := PeekNormalLog();
      if head.None? {
        return;
      }
      var slot := head.value;
      var e := regularLogPool[slot];
      var isReady: bool;
      var f: Entry;
      if e.isFormatted {
        isReady, f := true, e;
      } else {
        isReady, f := FormatLogEntry(e);
      }
      FormatEffect(e);
      ReadyFormWire(e);
      assert f == ReadyForm(e) && (isReady <==> e.isFormatted || Formattable(e));
      assert Consistent(f) && f.inUse;
      ghost var c := QueueContents();
      var isSent := OfferToChannel(uart, isReady, f, exclusiveFails);
      assert QueueContents() == c;
      if isSent {
        ReleaseHead(f);
      } else {
        RewriteHead(slot, f);
        notifications := notifications + 1;
      }
    }

    /** A sent head entry: dequeued, then released in the pool. */
    method ReleaseHead(f: Entry)
      requires QueueValid() && QueueContents() != [] && WellFormed(f)
      modifies this`logTail, regularLogPool
      ensures QueueValid()
      ensures QueueContents() == old(QueueContents())[1..]
      ensures regularLogPool[..] == old(regularLogPool[..])[old(QueueContents())[0] := Released(f)]
    {
      ghost var c, pool := QueueContents(), regularLogPool[..];
      var slot := DequeueNormalLog();
      QueuePop(c, pool, Released(f));
      regularLogPool[slot.value] := Released(f);
      assert regularLogPool[..] == pool[c[0] := Released(f)];
    }

    /** An unsent head entry: its formatted form is written back in place. */
    method RewriteHead(slot: nat, f: Entry)
      requires QueueValid() && QueueContents() != [] && slot == QueueContents()[0]
      requires Consistent(f) && f.inUse
      modifies regularLogPool
      ensures QueueValid()
      ensures regularLogPool[..] == old(regularLogPool[..])[slot := f]
    {
      ghost var c, pool := QueueContents(), regularLogPool[..];
      PoolUpdate(c, pool, slot, f);
      regularLogPool[slot] := f;
      assert regularLogPool[..] == pool[slot := f];
    }

    /**
     * logger_tx_scheduler: one unit of work. The highest pending bit wins and
     * the normal queue is not looked at when it selects a bound entry in use;
     * otherwise (no bit, or a stale bit, which is cleared) the queue head is
     * served.
     */
    method TxScheduler(uart: UartDmaHandler, exclusiveFails: bool)
      requires Valid() && uart.Valid()
      modifies this`highPrioMask, this`logTail, this`notifications
      modifies highPrioRegistry, regularLogPool, uart
      ensures Valid() && uart.Valid() && uart.completed == old(uart.completed)
      ensures old(MaskExact()) ==> MaskExact()
      ensures old(HighPrioSelected()) ==>
        && HighPrioServed(uart, exclusiveFails)
        && logTail == old(logTail) && regularLogPool[..] == old(regularLogPool[..])
      ensures !old(HighPrioSelected()) ==>
        && highPrioRegistry[..] == old(highPrioRegistry[..])
        && highPrioMask == (if old(highPrioMask) == {} then {} else old(highPrioMask) - {HighestSetBit(old(highPrioMask))})
        && NormalQueueServed(uart, exclusiveFails)
    {
      var served := ServeHighPrio(uart, exclusiveFails);
      if !served {
        ServeNormalQueue(uart, exclusiveFails);
      }
    }
  }

  /**
   * The 16-bit debug index wraps at 2^16, a multiple of the ring size, so the
   * ring position keeps advancing by one slot across the wrap.
   */
  lemma DebugRingAdvances(idx: U16)
    ensures ((idx + 1) % U16_LIMIT) % DEBUG_BUFFER_SIZE == (idx % DEBUG_BUFFER_SIZE + 1) % DEBUG_BUFFER_SIZE
  {
    if idx + 1 == U16_LIMIT {
      assert idx % DEBUG_BUFFER_SIZE == DEBUG_BUFFER_SIZE - 1;
    } else {
      assert (idx + 1) % U16_LIMIT == idx + 1;
    }
  }
}
