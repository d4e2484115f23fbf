/**
 * Runs of the driver built from the handlers' contracts alone: rejected and
 * accepted mode writes, coalescing of triggers, and single-shot reads.
 */
module Scenarios {
  import opened Wrappers
  import opened Decimal
  import opened Computation
  import opened GpioTrigger

  /** A value outside 0..2 is rejected even though it parses. */
  lemma ThreeRejected()
    ensures AcceptedMode("3") == None
  {
    assert FormatInt(3) == "3";
    FormatParseRoundTrip(3);
    CStringOfNoNul("3");
  }

  lemma MinusOneRejected()
    ensures AcceptedMode("-1") == None
  {
    assert FormatInt(-1) == "-1";
    FormatParseRoundTrip(-1);
    CStringOfNoNul("-1");
  }

  /** Text that is not a number is rejected, and so is a leading blank. */
  lemma NonNumbersRejected()
    ensures AcceptedMode("abc") == None && AcceptedMode(" 1") == None
  {
    CStringOfNoNul("abc");
    CStringOfNoNul(" 1");
    RejectsForeignChar("abc", 0);
    RejectsForeignChar(" 1", 0);
  }

  /** "2", with or without its newline, selects mode 2. */
  lemma TwoAccepted()
    ensures AcceptedMode("2") == Some(2) && AcceptedMode("2\n") == Some(2)
  {
    assert ModeText(2) == "2\n";
    ShowThenStore(2);
    FormatParseRoundTrip(2);
    CStringOfNoNul("2");
  }

  /**
   * An interrupt, the trigger ioctl and a write of "2" arriving while the job
   * is idle queue it once: the worker runs it once, stores the record of that
   * run, and finds nothing left to run afterwards.
   */
  method BurstCoalesces(d: Driver, tick: nat, later: nat) returns (first: bool, second: bool)
    requires d.Valid() && !d.work.pending
    modifies d, d.buffer, d.work
    ensures d.Valid()
    ensures first && !second
    ensures d.work.submissions == old(d.work.submissions) + 3
    ensures d.work.runs == old(d.work.runs) + 1
    ensures d.mode == 2 && d.Record() == Report(tick)
  {
    var _ := d.GpioIsr();
    var _ := d.DevIoctl(GPU_TRIGGER_IOCTL);
    TwoAccepted();
    var _ := d.ModeStore("2");
    first := d.ProcessWork(tick);
    second := d.ProcessWork(later);
  }

  /**
   * After a run, the first read of a session gets the whole record, the
   * second gets end of data, and a new session gets the same record again.
   */
  method SingleShotSessions(d: Driver, dst: array<char>) returns (r1: int, r2: int, r3: int)
    requires d.Valid() && d.lastTick.Some?
    requires dst != d.buffer && dst.Length >= RESULT_BUFFER_SIZE
    modifies dst
    ensures r1 == |d.Record()| > 0 && r2 == 0 && r3 == r1
    ensures dst[..r1] == d.Record()
  {
    var f := new OpenFile();
    r1 := d.DevRead(f, dst, dst.Length);
    r2 := d.DevRead(f, dst, dst.Length);
    var g := new OpenFile();
    r3 := d.DevRead(g, dst, dst.Length);
  }

  /** Before any run, a read gets end of data at once. */
  method EmptyCacheRead(dst: array<char>) returns (r: int)
    modifies dst
    ensures r == 0
  {
    var d := new Driver();
    var f := new OpenFile();
    r := d.DevRead(f, dst, dst.Length);
  }
}
