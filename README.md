# Logger, UART-DMA gate and Device Manager state machine in Dafny

This project models three pieces of a small FreeRTOS firmware:

- **The logger** (`logger.c`, `logger.h`). Producers take an entry from a fixed pool of 32. They fill it and commit it into a circular queue of pool indices. The queue has one slot always empty, so it holds at most 31 entries. Interrupts trigger pre-registered high-priority entries out of a 10-slot registry, each marked by a bit in a 32-bit pending mask. A scheduler, run by the logger task, does one unit of work per call:
  - the highest pending bit wins;
  - otherwise it serves the head of the normal queue.

  It formats the entry's `[dddddd]` timestamp prefix and hands `prefix ++ msg[0..length)` to the UART-DMA driver. When the queue is full, the entry is dropped and its timestamp is recorded in a 1024-word debug ring.
- **The UART-DMA transmit gate** (`UartDma.c`). A single busy flag is taken by an exclusive load/store in `UartDma_Transmit`. It is released only by the transfer-complete interrupt. An error interrupt leaves it set.
- **The Device Manager runtime** (`DevM_Runtime.c`). A static current state is advanced one transition per call of `DevM_RunStateMachine`. The FAULT handler never returns.

Modules, one per source component:

| file | module | models |
|---|---|---|
| `logger_types.dfy` | `LoggerTypes` | `Logger_Entry_T`, configuration constants, the initialiser macros, the wire form of an entry |
| `priority_mask.dfy` | `PriorityMask` | the pending mask as the set of its bit indices; `31 - __builtin_clz` |
| `logger_format.dfy` | `LoggerFormat` | `format_log_entry` and its decimal digit loop |
| `uart_dma.dfy` | `UartDma` | `g_uartDmaHandler`, `UartDma_Transmit`, `GPDMA1_Channel0_IRQHandler` |
| `logger.dfy` | `Logger` | `Logger_Context_T` as a class over arrays; every operation of `logger.c` |
| `logger_scenarios.dfy` | `LoggerScenarios` | end-to-end runs of the demo task's API use against the gate |
| `devm_runtime.dfy` | `DevMRuntime` | `DevM_RunStateMachine` over the static `currentState` |

The context's invariant `Valid()` has these parts:

- the queue contents `Ring(queue, head, tail)` lists pool indices in range. Each refers to an entry in use, and no index appears twice;
- an entry outside the queue is never marked formatted;
- every entry has the array sizes of the C record, and an entry marked formatted carries the prefix its own timestamp formats to (`Consistent`). So an entry sent on a retry, already formatted, still goes out as `[dddddd]` of its timestamp followed by its message;
- every pending bit is below 10, so the scheduler's registry index is always in range;
- a bound high-priority entry in use always has its bit set.

`MaskExact()` is the converse: every set bit belongs to a bound entry in use. Trigger, the scheduler, and register on a slot whose bit is clear all keep it. Re-registering a slot whose bit is still pending does not touch the mask (`src/middleware/logger/src/logger.c:165-175`), so the bit goes stale. The scheduler then clears it and falls through to the queue (`src/middleware/logger/src/logger.c:130-133`). The invariant `Valid()` does not depend on `MaskExact()`.

Modelling choices:

- The 32-bit mask is the set of its bit indices below 32. `mask | (1u << i)` becomes `mask + {i}` and `mask & ~(1u << i)` becomes `mask - {i}`.
- The atomics (compare-and-exchange, atomic or/and, fetch-add, LDREX/STREX) are plain sequential updates.
- A failed exclusive store is an input `exclusiveFails` to the transmit.
- `xTaskNotifyGive` increments a `notifications` counter.
- `xTaskGetTickCount()` is a `tick` parameter.
- `DevM_StateInitPostOS()` is a `postOsResult` input. Its stubs in `src/app/DevM/src/DevM_PostOS.c:31-52` always return OK, a case the model covers.
- The producer's `strcpy` plus `length` assignment through the allocated pointer (`src/app/test_swc/src/test_swc.c:69-74`) is `LoggerContext.WriteMessage`.
- `LOGGER_PREFIX_SIZE` is not defined in any of the files modelled. `format_log_entry` writes prefix bytes 0 to 7, so it is taken as 8.
- The transmit size `entry->length + LOGGER_PREFIX_SIZE` is converted to the `uint16_t` parameter explicitly (`% 65536`). For a formattable entry the conversion loses nothing (`TransmitRegionIsWire`).
- A DMA transfer is recorded as a copy of the byte block the channel was programmed with, taken at accept time (`UartDmaHandler.programmed`). The DMA of the source reads the buffer in place instead (see "## Left out"). A ghost count of completed transfers shows that at most one is in flight.
- The FAULT handler's `while (1)` is the outcome `Hung` of `RunStateMachine`, with the state frozen. `Trace` stops at a call that hangs.

Behaviour of the code worth knowing:

- `logger_trigger_highprio` does not restore `length` from `base_length`, although the header calls `base_length` the length of the template message (`src/middleware/logger/inc/logger.h:73`). `base_length` is only written by registration.
- `format_log_entry` rewrites the prefix before its length check. An entry with `length >= 256` is never sent and never dropped. The header promises retries "until the transmission succeeds" (`src/middleware/logger/inc/logger.h:111-119`), and the code keeps that promise literally, so the retries never end:
  - on the normal path the entry stays at the head and is re-notified on every call, so every later entry waits behind it;
  - on the high-priority path a bound entry in use keeps its bit set and is re-notified on every call (`src/middleware/logger/src/logger.c:105-127`). It starves the normal queue and every lower slot. `DefineHighPrioEntry` admits such an entry (a 256-byte literal), and `HighPrioServed` states this case.
- The scheduler frees a sent entry (`in_use = false`) as soon as the DMA channel accepts it, while the transfer is still in flight and still reading the entry's buffer. `CommitThenSend` shows that state: the entry is free while the channel is still busy with its transfer. A new allocation can then overwrite the bytes being sent, which the model does not capture (see "## Left out").
- The high-priority path of `logger_tx_scheduler` has a second `else` after `if/else` (`src/middleware/logger/src/logger.c:113-116`) that does not compile. The model takes the single intended branch: a format failure leaves `isSent` false.

## Model

| member | source | states |
|---|---|---|
| LoggerTypes.EmptyEntry | src/middleware/logger/inc/logger.h:31 | a zero-initialised pool entry is well formed, free, unformatted, of length 0 with a zeroed prefix |
| LoggerTypes.DefineHighPrioEntry | src/middleware/logger/inc/logger.h:46-54 | the static entry holds the literal in `msg`, with `length == base_length == strlen(literal)`, both flags false and a zero prefix |
| LoggerTypes.TransmitRegionIsWire | src/middleware/logger/inc/logger.h:68-77 | since `msg` follows `prefix` in memory, the `length + LOGGER_PREFIX_SIZE` bytes from `&prefix[0]` are exactly `prefix ++ msg[0..length)`, and the `uint16_t` size conversion loses nothing for a formattable entry |
| PriorityMask.HighestSetBit | src/middleware/logger/src/logger.c:100 | `31 - __builtin_clz(pending)` is a set bit of the mask and no set bit is above it |
| PriorityMask.HigherBitServedFirst | src/middleware/logger/src/logger.c:97-101 | while bit a is pending, the selected index is at least a and never a lower bit b |
| PriorityMask.HighestSetBitBelow | src/middleware/logger/src/logger.c:75-76 | a mask with all bits below K selects an index below K, so the registry access at line 101 is in range |
| LoggerFormat.Digits | src/middleware/logger/src/logger.c:254-258 | the loop's output has exactly n characters, each a decimal digit |
| LoggerFormat.DigitsRoundTrip | src/middleware/logger/src/logger.c:254-258 | the digits read back as a decimal number give the value modulo 10^n |
| LoggerFormat.TimestampPrefixDecodes | src/middleware/logger/src/logger.c:252-259 | the prefix is 8 bytes: `'['`, six digits that decode to `timestamp mod 10^6`, then `']'` |
| LoggerFormat.FormatLogEntry | src/middleware/logger/src/logger.c:250-266 | the digit loop writes prefix[6] down to prefix[1]; the result is false exactly when `length >= 256`; the prefix is rewritten either way; the entry is marked formatted only on success |
| LoggerFormat.FormatIdempotent | src/middleware/logger/src/logger.c:250-266 | formatting an already formatted entry again yields the same entry |
| LoggerFormat.FormatEffect | src/middleware/logger/src/logger.c:250-266 | formatting changes only the first eight prefix bytes and, on success, sets `is_formatted`; a failure leaves `is_formatted` as it was; message, length, timestamp and `in_use` are untouched |
| UartDma.UartDmaHandler.constructor | src/bsw/uart_dma/src/UartDma.c:30 | the handler starts not busy with nothing programmed |
| UartDma.UartDmaHandler.Transmit | src/bsw/uart_dma/src/UartDma.c:66-99 | accepted exactly when the buffer is non-null, the size non-zero, the channel free and the exclusive store succeeds; an accepted call sets busy and programs `data[0..size)`; a rejected one changes nothing; at most one transfer is in flight |
| UartDma.UartDmaHandler.Channel0IrqHandler | src/bsw/uart_dma/src/UartDma.c:194-211 | transfer-complete clears busy and completes the transfer in flight; an error event only calls the error handler (which returns false, lines 169-172) and leaves busy as it was |
| Logger.RingLength | src/middleware/logger/src/logger.c:205-206 | the queue holds `(head - tail) mod 32` entries, at most 31 |
| Logger.RingEmpty | src/middleware/logger/src/logger.c:224 | the queue is empty exactly when `head == tail` |
| Logger.RingFull | src/middleware/logger/src/logger.c:205-206 | `(head + 1) % 32 == tail` exactly when 31 entries are queued |
| Logger.RingPush | src/middleware/logger/src/logger.c:208-209 | storing at head and advancing head modulo 32 appends the index at the end of the contents |
| Logger.RingPop | src/middleware/logger/src/logger.c:228-229 | `queue[tail]` is the oldest element, and advancing tail removes exactly it (FIFO order) |
| Logger.PoolUpdate | src/middleware/logger/src/logger.c:48-49 | rewriting one pool entry keeps the pool well formed and the queue invariant, provided a queued entry stays in use and an unqueued one unformatted |
| Logger.QueuePush | src/middleware/logger/src/logger.c:208 | queuing an unqueued entry in use keeps the queue invariant |
| Logger.QueuePop | src/middleware/logger/src/logger.c:149-151 | dequeuing the head and releasing its entry keeps the queue invariant |
| Logger.RegistryUpdate | src/middleware/logger/src/logger.c:81-85 | rewriting a registry slot keeps the registry invariant when its bit follows its `in_use` flag |
| Logger.RegistryDropStale | src/middleware/logger/src/logger.c:130-133 | clearing the bit of an unbound or idle slot keeps the registry invariant |
| Logger.MaskMatchesUpdate | src/middleware/logger/src/logger.c:120-122 | the same slot updates keep every set bit attached to a bound entry in use |
| Logger.OfferToChannel | src/middleware/logger/src/logger.c:142-145 | a ready entry is offered as `&prefix[0]` with size `length + LOGGER_PREFIX_SIZE`; it is sent exactly when the channel is free and the store succeeds; the channel then carries its wire form; an unready entry is never offered |
| Logger.LoggerContext.constructor | src/middleware/logger/inc/logger.h:27-37 | mask 0, an empty registry, all pool entries free, `head == tail == 0` (empty queue), a zero debug ring with index 0 |
| Logger.LoggerContext.AllocEntry | src/middleware/logger/src/logger.c:30-54 | returns the lowest-indexed free entry, now in use, unformatted and with a zero prefix, all other entries unchanged; returns NULL with nothing changed exactly when every entry is in use |
| Logger.LoggerContext.WriteMessage | src/app/test_swc/src/test_swc.c:72-73 | the producer's copy puts the text at the start of `msg` and sets `length`; nothing else changes |
| Logger.LoggerContext.DebugPush | src/middleware/logger/src/logger.c:193-197 | the value lands at `debug_idx % 1024` and the 16-bit index advances by one, wrapping at 2^16 |
| Logger.DebugRingAdvances | src/middleware/logger/inc/logger.h:132-141 | across the 16-bit wrap of the index the ring position still advances by exactly one slot, so the buffer stays circular |
| Logger.LoggerContext.EnqueueNormalLog | src/middleware/logger/src/logger.c:203-217 | not full: the index is appended and head advances modulo 32, tail and pool unchanged; full: the queue is unchanged, the entry is freed and unformatted, and its timestamp is pushed to the debug ring |
| Logger.LoggerContext.CommitEntry | src/middleware/logger/src/logger.c:60-66 | the entry is stamped with the tick and unformatted, then appended, or dropped and recorded when the queue is full; the task is notified once |
| Logger.LoggerContext.DequeueNormalLog | src/middleware/logger/src/logger.c:222-231 | NULL exactly when `head == tail`; otherwise returns `queue[tail]`, the oldest entry, removes it from the contents and advances tail modulo 32 |
| Logger.LoggerContext.PeekNormalLog | src/middleware/logger/src/logger.c:236-243 | NULL exactly when the queue is empty; otherwise the entry dequeue would return; nothing changes |
| Logger.LoggerContext.TriggerHighPrio | src/middleware/logger/src/logger.c:73-87 | a complete no-op for `idx >= 10` or an unbound slot; otherwise the entry gets a zero prefix, the timestamp, `in_use` and not formatted (`length` untouched), exactly bit `idx` is added to the mask, and the task is notified |
| Logger.LoggerContext.RegisterHighPrio | src/middleware/logger/src/logger.c:165-175 | for `idx < 10` binds the entry with `base_length = length` and both flags cleared; for `idx >= 10` changes nothing; the mask is not touched |
| Logger.LoggerContext.ServeHighPrio | src/middleware/logger/src/logger.c:97-134 | selects the highest set bit. A bound entry in use is formatted. If sent, the channel carries `[dddddd]` of its timestamp followed by its message, the entry is freed and only its bit is cleared. If not sent, the bit stays and the task is re-notified. An unbound or idle slot only has its bit cleared, and the call falls through |
| Logger.LoggerContext.ServeNormalQueue | src/middleware/logger/src/logger.c:137-157 | an empty queue changes nothing. Otherwise the head is formatted unless it already is, and sent only if ready, on a retry as on the first attempt as `[dddddd]` of its timestamp followed by its message. A sent head is dequeued and freed; an unsent one stays at the head and the task is re-notified |
| Logger.LoggerContext.ReleaseHead | src/middleware/logger/src/logger.c:147-152 | a sent head is removed from the queue and its entry freed and unformatted |
| Logger.ReadyFormWire | src/middleware/logger/src/logger.c:141-144 | for a consistent entry, formatted now or on an earlier attempt, the bytes handed to the channel are the prefix of its own timestamp followed by its first `length` message bytes, and the entry stays consistent |
| Logger.LoggerContext.RewriteHead | src/middleware/logger/src/logger.c:141 | an unsent head keeps its place and holds the formatted form written in place |
| Logger.LoggerContext.TxScheduler | src/middleware/logger/src/logger.c:92-158 | one unit of work: with a selected high-priority entry the normal queue is untouched; otherwise (no bit, or a stale bit that is cleared) the queue head is served. Both invariants are kept |
| LoggerScenarios.CommittedEntryWire | src/app/test_swc/src/test_swc.c:69-74 | an allocated, filled and committed pool entry is formattable, and its formatted wire form is the timestamp prefix followed by exactly the text |
| LoggerScenarios.CommittedOnce | src/app/test_swc/src/test_swc.c:69-74 | one allocate, fill and commit on a fresh logger leaves the entry in slot 0 queued alone, with the registry empty |
| LoggerScenarios.CommitThenSend | src/middleware/logger/src/logger.c:137-152 | the channel receives `[dddddd]` (tick mod 10^6) followed by exactly the message; afterwards the queue is empty and the entry free while the channel is still busy with the transfer |
| LoggerScenarios.TriggeredLiteralWire | src/middleware/logger/src/logger.c:165-175 | a registered and triggered static entry is formattable, and its wire form is the trigger's timestamp prefix followed by the literal |
| LoggerScenarios.PendingBoth | src/middleware/logger/src/logger.c:73-87 | after registering and triggering slot 3 the mask is exactly {3} and the slot holds the triggered entry, with the normal entry still queued |
| LoggerScenarios.HighPriorityFirst | src/middleware/logger/inc/logger.h:111-119 | a pending high-priority entry is sent before an older normal entry, which stays queued |
| LoggerScenarios.AllocAndCommit | src/app/test_swc/src/test_swc.c:69-74 | with room in the queue one demo round claims the next free entry i, appends i to the queue contents and advances head, leaving the debug index and buffer unchanged |
| LoggerScenarios.FilledQueue | src/middleware/logger/src/logger.c:205-210 | 31 rounds with no consumer fill the queue: entries 0..30 in use and queued in the order they were committed (contents `[0, 1, ..., 30]`), the last one free, no drop recorded |
| LoggerScenarios.CommitIntoFullQueue | src/middleware/logger/src/logger.c:211-217 | the next round's allocation returns the last pool entry (index 31), but its commit drops it and records its timestamp in debug slot 0; the queue contents and their order, head and tail are unchanged |
| LoggerScenarios.FillWithoutConsumer | src/middleware/logger/inc/logger.h:83-84 | pool and queue both have 32 slots, but at most 31 entries are ever queued: the 32nd entry is allocated (slot 31), then its commit is dropped and recorded, and the 31 earlier entries are still queued in commit order (`[0, 1, ..., 30]`) |
| LoggerScenarios.BusyChannel | src/bsw/uart_dma/src/UartDma.c:76-98 | one accepted transmit leaves the channel busy with exactly that block programmed |
| LoggerScenarios.RefusedWhileBusy | src/middleware/logger/src/logger.c:137-156 | with the channel busy, the scheduler formats the lone queued entry in place, sends nothing and leaves it queued |
| LoggerScenarios.SentOnRetry | src/middleware/logger/src/logger.c:141-152 | after transfer-complete, the retry sends the already formatted head as the timestamp prefix followed by the text, and drains the queue |
| LoggerScenarios.RefusedOnce | src/middleware/logger/inc/logger.h:111-119 | a committed message refused by a busy channel stays queued, formatted, with only the other transfer programmed |
| LoggerScenarios.RetryAfterBusy | src/middleware/logger/inc/logger.h:111-119 | a message refused by a busy channel stays queued; after transfer-complete the retry sends it as `[dddddd]` (tick mod 10^6) followed by exactly the message, and the queue is drained |
| LoggerScenarios.OneTransferInFlight | src/bsw/uart_dma/src/UartDma.c:76-83 | a second transmit is refused while the first is in flight, still refused after an error interrupt, and accepted after transfer-complete |
| DevMRuntime.PostOsTransition | src/app/DevM/src/DevM_Runtime.c:39-42 | INIT_POST_OS goes to RUN exactly when post-OS init returns OK, and to FAULT otherwise |
| DevMRuntime.DefaultToFault | src/app/DevM/src/DevM_Runtime.c:56-60 | INIT_PRE_OS, INIT_OS and any out-of-range value go to FAULT, and the call returns |
| DevMRuntime.HandlersKeepState | src/app/DevM/src/DevM_Runtime.c:44-54 | RUN, SOFT_RESTART and FAULT leave the state unchanged |
| DevMRuntime.OnlyInitAndDefaultWrite | src/app/DevM/src/DevM_Runtime.c:36-61 | the state changes exactly in the INIT_POST_OS and default branches |
| DevMRuntime.RunEnteredOnlyFromPostOs | src/app/DevM/src/DevM_Runtime.c:41 | one step leads to RUN exactly from RUN, or from INIT_POST_OS with OK |
| DevMRuntime.Trace | src/app/DevM/src/DevM_Runtime.c:95-109 | successive calls visit at most one state per call; each state in the trace is one transition, by a call that returned, from the state before it with that call's post-OS result; a trace shorter than its inputs ends in a state whose call hangs |
| DevMRuntime.RunOnlyViaPostOs | src/app/DevM/src/DevM_Runtime.c:39-61 | in any sequence of transitions, each from the state before, a RUN anywhere implies a start in RUN or INIT_POST_OS, since no transition enters INIT_POST_OS |
| DevMRuntime.RunReachableOnlyViaPostOs | src/app/DevM/src/DevM_Runtime.c:39-61 | over any number of calls, RUN is reached only from a start in RUN or INIT_POST_OS |
| DevMRuntime.FromInitialStateRunUnreachable | src/app/DevM/src/DevM_Runtime.c:22 | from the initial state FAULT the first call hangs, so the trace is empty and no state, RUN in particular, is ever reached |
| DevMRuntime.DeviceManager.constructor | src/app/DevM/src/DevM_Runtime.c:22 | the state starts as FAULT |
| DevMRuntime.DeviceManager.RunStateMachine | src/app/DevM/src/DevM_Runtime.c:32-75 | the call hangs exactly in FAULT (`DevM_StateFault` never returns); otherwise it applies one transition of the switch |

## Left out

- OfferToChannel and UartDmaHandler.Transmit: the DMA reads the entry in place, with no copy, after the scheduler has already freed it (`src/middleware/logger/src/logger.c:147-151`). The model records the transfer as a copy of the bytes taken when the channel accepts it. So it does not capture a freed entry being reused while its transfer is in flight. In that window `logger_alloc_entry` can zero its prefix (lines 48-49) and the producer's `strcpy` can overwrite `msg` (`src/app/test_swc/src/test_swc.c:72`), corrupting the bytes on the wire. "The channel carries its wire form" holds only of that copy.

- Hardware programming is not modelled: GPIO, USART and DMA initialisation, the D-cache clean, the `LL_DMA_*`/`LL_USART_*` register calls and the flag clears in the interrupt. These are vendor-library calls with no visible semantics. Programming the channel is recorded as the byte block it is given.
- Concurrency is not modelled. Every operation runs to completion, and interleavings of producers, interrupts and the logger task are out of scope. This includes the unguarded head race between two producers in `enqueue_normal_log`, and an interrupt triggering an entry while it is being sent.
- Memory barriers, `__CLREX` and the acquire/relaxed orderings are not modelled; they only matter under concurrency.
- Aliasing of registered high-priority entries: the registry holds the entry by value. A caller that writes the static entry directly after registering it is not modelled, and neither is an entry registered in two slots.
- `logger_tx_task` (its wait-and-schedule loop) is not modelled. Neither is the `logger_full_entry` it registers, which is defined in no file of this model.
- `UartDma_MainTask`, task creation and the notify/take machinery of FreeRTOS are not modelled; notifications are a counter only.
- `DevM_MainFunction`'s blocking event-queue loop is not modelled beyond `Trace`, which takes one post-OS result per call.
- The boot files (`DevM.c`, `DevM_PreOS.c`), `SysM.c` and the demo task's periodic delay are not modelled. `DevM_PostOS.c` is the `postOsResult` input.
- The demo task's alloc-failure branch, which triggers a high-priority entry, is not a separate scenario. It is `TriggerHighPrio` on a full pool.
- Logger.LoggerContext.WriteMessage: the producer writes only the first `|text|` message bytes and any `length`. The NUL byte that `strcpy` adds is not modelled.
- UartDma.ErrorHandler: it only returns false, so it carries no contract of its own.
- The scenarios use the default configuration sizes only (32, 10, 256, 1024). The logger model fixes them as constants.
