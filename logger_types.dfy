/**
 * Record layouts, configuration constants and static initial values of the
 * logger (logger.h with the defaults of logger_cfg.h).
 */
module LoggerTypes {

  /** LOGGER_HIGH_PRIO_LOGS_NUMBER: number of high-priority registry slots. */
  const HIGH_PRIO_LOGS: nat := 10
  /** LOGGER_LOG_ENTRY_BUFFER_SIZE: capacity of an entry's message buffer. */
  const ENTRY_BUFFER_SIZE: nat := 256
  /** LOGGER_LOG_QUEUE_SIZE: slots of the entry pool and of the normal queue. */
  const QUEUE_SIZE: nat := 32
  /** LOGGER_DEBUG_BUFFER_SIZE: words of the debug ring. */
  const DEBUG_BUFFER_SIZE: nat := 1024
  /**
   * LOGGER_PREFIX_SIZE: bytes of the formatted "[dddddd]" prefix. The
   * configuration does not define it; formatting writes indices 0..7, so it
   * is taken as 8.
   */
  const PREFIX_SIZE: nat := 8

  /** Widths of the C integer types the logger uses. */
  const U16_LIMIT: nat := 0x1_0000
  const U32_LIMIT: nat := 0x1_0000_0000

  type Byte = b: int | 0 <= b < 0x100
  type U8 = x: int | 0 <= x < 0x100
  type U16 = x: int | 0 <= x < U16_LIMIT
  type U32 = x: int | 0 <= x < U32_LIMIT

  /** A nullable reference, or an index that may be absent (NULL). */
  datatype Option<T> = None | Some(value: T)

  /**
   * Logger_Entry_T. `prefix` is the char array that precedes `msg` in memory,
   * so a transmission starting at prefix[0] reads prefix then msg.
   */
  datatype Entry = Entry(
    prefix: seq<Byte>,
    msg: seq<Byte>,
    length: U32,
    baseLength: U32,
    timestamp: U32,
    inUse: bool,
    isFormatted: bool
  )

  /**
   * The array sizes of Logger_Entry_T, and the fact that an entry is only ever
   * marked formatted by a successful format, which requires
   * length < ENTRY_BUFFER_SIZE.
   */
  ghost predicate WellFormed(e: Entry)
  {
    && |e.prefix| == PREFIX_SIZE
    && |e.msg| == ENTRY_BUFFER_SIZE
    && (e.isFormatted ==> e.length < ENTRY_BUFFER_SIZE)
  }

  function Zeros(n: nat): (z: seq<Byte>)
    ensures |z| == n && forall i :: 0 <= i < n ==> z[i] == 0
  {
    seq(n, _ => 0)
  }

  /** An entry of a zero-initialised pool: `.regular_log_pool = {0}`. */
  function EmptyEntry(): (e: Entry)
    ensures WellFormed(e) && !e.inUse && !e.isFormatted
    ensures e.length == 0 && e.prefix == Zeros(PREFIX_SIZE)
  {
    Entry(Zeros(PREFIX_SIZE), Zeros(ENTRY_BUFFER_SIZE), 0, 0, 0, false, false)
  }

  /**
   * LOGGER_DEFINE_HIGHPRIO_ENTRY(name, literal): a static entry whose message
   * buffer holds the literal (the rest zero) and whose length and base length
   * are the literal's length without its terminating NUL.
   */
  function DefineHighPrioEntry(literal: seq<Byte>): (e: Entry)
    requires |literal| <= ENTRY_BUFFER_SIZE
    ensures |e.prefix| == PREFIX_SIZE && |e.msg| == ENTRY_BUFFER_SIZE
    ensures e.length == e.baseLength == |literal|
    ensures e.msg[..e.length] == literal
    ensures !e.inUse && !e.isFormatted
    ensures e.prefix == Zeros(PREFIX_SIZE)
  {
    Entry(Zeros(PREFIX_SIZE), literal + Zeros(ENTRY_BUFFER_SIZE - |literal|),
          |literal|, |literal|, 0, false, false)
  }

  /**
   * The bytes on the wire for an entry: the prefix followed by the first
   * `length` message bytes.
   */
  function Wire(e: Entry): seq<Byte>
    requires e.length <= |e.msg|
  {
    e.prefix + e.msg[..e.length]
  }

  /**
   * The scheduler hands UartDma_Transmit the address of prefix[0] and the size
   * `length + LOGGER_PREFIX_SIZE`, converted to the uint16_t parameter. For a
   * formattable entry the conversion loses nothing and the region read is
   * exactly the wire form.
   */
  lemma TransmitRegionIsWire(e: Entry)
    requires WellFormed(e) && e.length < ENTRY_BUFFER_SIZE
    ensures (e.length + PREFIX_SIZE) % U16_LIMIT == e.length + PREFIX_SIZE
    ensures (e.prefix + e.msg)[..(e.length + PREFIX_SIZE) % U16_LIMIT] == Wire(e)
  {
    var region := e.prefix + e.msg;
    assert region[..e.length + PREFIX_SIZE] == e.prefix + e.msg[..e.length];
  }
}
