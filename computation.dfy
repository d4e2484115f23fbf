/**
 * The status line the simulated GPU computation stores in the result buffer:
 * a fixed prefix, the tick count in decimal and a newline, bounded to the
 * 128-byte buffer. The tick count is a parameter, so the text of every run
 * can be stated.
 */
module Computation {
  import opened Wrappers
  import opened Decimal

  /** `sizeof(result_buffer)`: 127 bytes of text and the terminating NUL. */
  const RESULT_BUFFER_SIZE: nat := 128

  /** The fixed part of the format string, before the `%lu` conversion. */
  const PREFIX: string := "GPU computation done! jiffies="

  /** One more than the largest `unsigned long` on a 64-bit kernel. */
  const ULONG_LIMIT: nat := 0x1_0000_0000_0000_0000

  /**
   * The formatted text before `snprintf` bounds it to the buffer: the prefix,
   * the digits of the tick, one newline, and no NUL anywhere.
   */
  function Message(tick: nat): (m: string)
    ensures |m| == |PREFIX| + |Digits(tick)| + 1
    ensures m[..|PREFIX|] == PREFIX && m[|PREFIX|..|m| - 1] == Digits(tick) && m[|m| - 1] == '\n'
    ensures NoNul(m)
  {
    var m := PREFIX + Digits(tick) + "\n";
    assert m[|PREFIX|..|m| - 1] == Digits(tick);
    assert forall i :: |PREFIX| <= i < |m| - 1 ==> m[i] == Digits(tick)[i - |PREFIX|];
    m
  }

  /**
   * What `snprintf(buf, size, ...)` leaves before the NUL it writes: the
   * formatted text cut to at most `size - 1` bytes.
   */
  function Bounded(s: string, size: nat): (r: string)
    requires size >= 1
    ensures |r| < size && |r| <= |s| && r == s[..|r|]
    ensures |s| < size ==> r == s
    ensures |s| >= size ==> |r| == size - 1
  {
    if |s| < size then s else s[..size - 1]
  }

  /** The record one run of the computation stores, for tick count `tick`. */
  function Report(tick: nat): (r: string)
    ensures |PREFIX| < |r| < RESULT_BUFFER_SIZE
    ensures r[..|PREFIX|] == PREFIX
    ensures NoNul(r)
  {
    var m := Message(tick);
    Bounded(m, RESULT_BUFFER_SIZE)
  }

  /** Reads the tick count back out of a stored record, if it has the report's shape. */
  function TickOf(text: string): Option<nat> {
    if |text| >= |PREFIX| + 2 && text[..|PREFIX|] == PREFIX && text[|text| - 1] == '\n'
       && AllDigits(text[|PREFIX|..|text| - 1])
    then Some(ValueOf(text[|PREFIX|..|text| - 1]))
    else None
  }

  /**
   * For every 64-bit tick count the message fits the 128-byte buffer, so the
   * bound of `snprintf` never cuts it: the record is the whole message, at most
   * 51 bytes (30 of prefix, at most 20 digits, the newline).
   */
  lemma ReportFits(tick: nat)
    requires tick < ULONG_LIMIT
    ensures Report(tick) == Message(tick)
    ensures |Report(tick)| <= 51
  {
    assert Pow10(5) == 100_000;
    assert Pow10(10) == 100_000 * 100_000;
    assert Pow10(15) == 100_000 * 100_000 * 100_000;
    assert Pow10(20) == 100_000_000_000_000_000_000;
    DigitsLength(tick, 20);
  }

  /** The record of a run holds that run's tick count: reading it back recovers the tick. */
  lemma ReportTickRoundTrip(tick: nat)
    requires tick < ULONG_LIMIT
    ensures TickOf(Report(tick)) == Some(tick)
  {
    ReportFits(tick);
    DigitsRoundTrip(tick);
    var m := Message(tick);
    assert m[|PREFIX|..|m| - 1] == Digits(tick);
  }

  /** Runs at different ticks leave different records, so observers can tell them apart. */
  lemma ReportsDistinct(t1: nat, t2: nat)
    requires t1 < ULONG_LIMIT && t2 < ULONG_LIMIT
    requires t1 != t2
    ensures Report(t1) != Report(t2)
  {
    ReportTickRoundTrip(t1);
    ReportTickRoundTrip(t2);
  }
}
