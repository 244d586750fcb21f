/**
 * format_log_entry (logger.c): writes the "[dddddd]" timestamp prefix of an
 * entry and reports whether the entry's length fits its message buffer.
 */
module LoggerFormat {
  import opened LoggerTypes

  const OPEN_BRACKET: Byte := '[' as int
  const CLOSE_BRACKET: Byte := ']' as int
  const ZERO_CHAR: Byte := '0' as int
  /** Digits written into prefix[1..7]. */
  const TIMESTAMP_DIGITS: nat := 6

  function DigitChar(d: nat): Byte
    requires d < 10
  {
    ZERO_CHAR + d
  }

  function Pow10(n: nat): (p: nat)
    ensures p > 0
  {
    if n == 0 then 1 else 10 * Pow10(n - 1)
  }

  /**
   * The n least significant decimal digits of v as characters, most
   * significant first, zero-padded.
   */
  function Digits(v: nat, n: nat): (s: seq<Byte>)
    ensures |s| == n
    ensures forall k :: 0 <= k < n ==> ZERO_CHAR <= s[k] <= ZERO_CHAR + 9
  {
    if n == 0 then [] else Digits(v / 10, n - 1) + [DigitChar(v % 10)]
  }

  /** Reads a string of decimal digit characters back as a number. */
  function ParseDigits(s: seq<Byte>): int
  {
    if s == [] then 0 else 10 * ParseDigits(s[..|s| - 1]) + (s[|s| - 1] - ZERO_CHAR)
  }

  lemma MulAtLeast(d: nat, x: nat)
    requires x >= 1
    ensures d * x >= d
  {
    if x > 1 {
      MulAtLeast(d, x - 1);
      assert d * x == d * (x - 1) + d;
    }
  }

  /** Uniqueness of the Euclidean remainder. */
  lemma ModUnique(v: nat, d: nat, q: nat, r: nat)
    requires d > 0 && v == d * q + r && r < d
    ensures v % d == r
  {
    var q', r' := v / d, v % d;
    assert v == d * q' + r';
    if q' < q {
      assert d * q == d * q' + d * (q - q');
      MulAtLeast(d, q - q');
      assert false;
    } else if q' > q {
      assert d * q' == d * q + d * (q' - q);
      MulAtLeast(d, q' - q);
      assert false;
    }
  }

  /** One decimal digit split off the low end. */
  lemma ModStep(v: nat, m: nat)
    requires m > 0
    ensures 10 * ((v / 10) % m) + v % 10 == v % (10 * m)
  {
    var q, r := v / 10, v % 10;
    var a, b := q / m, q % m;
    assert q == m * a + b;
    assert v == (10 * m) * a + (10 * b + r);
    ModUnique(v, 10 * m, a, 10 * b + r);
  }

  /** The digits read back as the value modulo 10^n. */
  lemma {:induction false} DigitsRoundTrip(v: nat, n: nat)
    ensures ParseDigits(Digits(v, n)) == v % Pow10(n)
    decreases n
  {
    if n > 0 {
      var s := Digits(v, n);
      assert s[..|s| - 1] == Digits(v / 10, n - 1);
      DigitsRoundTrip(v / 10, n - 1);
      ModStep(v, Pow10(n - 1));
    }
  }

  /** The eight prefix bytes written for a timestamp: '[', six digits, ']'. */
  function TimestampPrefix(ts: nat): seq<Byte>
  {
    [OPEN_BRACKET] + Digits(ts, TIMESTAMP_DIGITS) + [CLOSE_BRACKET]
  }

  /** The prefix decodes to the timestamp modulo 10^6. */
  lemma TimestampPrefixDecodes(ts: nat)
    ensures |TimestampPrefix(ts)| == 8
    ensures TimestampPrefix(ts)[0] == OPEN_BRACKET && TimestampPrefix(ts)[7] == CLOSE_BRACKET
    ensures ParseDigits(TimestampPrefix(ts)[1..7]) == ts % 1000000
  {
    assert TimestampPrefix(ts)[1..7] == Digits(ts, TIMESTAMP_DIGITS);
    DigitsRoundTrip(ts, TIMESTAMP_DIGITS);
  }

  /** Whether format_log_entry reports success. */
  predicate Formattable(e: Entry)
  {
    e.length < ENTRY_BUFFER_SIZE
  }

  /**
   * The entry after format_log_entry: the first eight prefix bytes are always
   * rewritten (even when formatting then fails), and the entry is marked
   * formatted on success only.
   */
  function FormattedEntry(e: Entry): Entry
    requires |e.prefix| == PREFIX_SIZE
  {
    e.(prefix := TimestampPrefix(e.timestamp) + e.prefix[8..],
       isFormatted := e.isFormatted || Formattable(e))
  }

  /**
   * format_log_entry, with its digit loop: prefix[6] down to prefix[1] receive
   * the least significant decimal digits of the timestamp.
   */
  method FormatLogEntry(e: Entry) returns (ok: bool, r: Entry)
    requires |e.prefix| == PREFIX_SIZE
    ensures ok <==> e.length < ENTRY_BUFFER_SIZE
    ensures r == FormattedEntry(e)
  {
    var ts: nat := e.timestamp;
    var prefix := e.prefix[0 := OPEN_BRACKET];
    var i := 6;
    while i >= 1
      invariant 0 <= i <= 6
      invariant |prefix| == PREFIX_SIZE && prefix[0] == OPEN_BRACKET
      invariant prefix[7..] == e.prefix[7..]
      invariant Digits(e.timestamp, TIMESTAMP_DIGITS) == Digits(ts, i) + prefix[i + 1..7]
    {
      prefix := prefix[i := DigitChar(ts % 10)];
      ts := ts / 10;
      i := i - 1;
    }
    prefix := prefix[7 := CLOSE_BRACKET];
    assert prefix == TimestampPrefix(e.timestamp) + e.prefix[8..];
    r := e.(prefix := prefix);
    if e.length >= ENTRY_BUFFER_SIZE {
      return false, r;
    }
    r := r.(isFormatted := true);
    return true, r;
  }

  /**
   * Formatting is idempotent: formatting an already formatted entry again
   * (same timestamp, no reset in between) leaves it unchanged.
   */
  lemma FormatIdempotent(e: Entry)
    requires |e.prefix| == PREFIX_SIZE
    ensures |FormattedEntry(e).prefix| == PREFIX_SIZE
    ensures FormattedEntry(FormattedEntry(e)) == FormattedEntry(e)
  {
    var f := FormattedEntry(e);
    assert f.prefix[8..] == e.prefix[8..];
  }

  /**
   * A failed format leaves everything but the first eight prefix bytes as it
   * was, is_formatted included; a successful one sets is_formatted. Neither
   * touches the message, its length or the timestamp.
   */
  lemma FormatEffect(e: Entry)
    requires |e.prefix| == PREFIX_SIZE
    ensures var f := FormattedEntry(e);
      && |f.prefix| == PREFIX_SIZE
      && f.prefix[..8] == TimestampPrefix(e.timestamp)
      && f.msg == e.msg && f.length == e.length && f.timestamp == e.timestamp
      && f.inUse == e.inUse && f.baseLength == e.baseLength
      && (Formattable(e) ==> f.isFormatted)
      && (!Formattable(e) ==> f.isFormatted == e.isFormatted)
  {
    var f := FormattedEntry(e);
    assert f.prefix[..8] == TimestampPrefix(e.timestamp);
  }
}
