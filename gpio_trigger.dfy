/**
 * The gpio_trigger character-device driver without its registration code:
 * three trigger entry points (the GPIO interrupt handler, the ioctl handler,
 * the mode attribute's store handler) that submit one deferred job, the job
 * that stores a status line in a 128-byte result buffer, and the read handler
 * that hands that line out once per open file.
 *
 * Each handler is one method; a section that holds `result_lock` is one call.
 */
module GpioTrigger {
  import opened Wrappers
  import opened Decimal
  import opened Computation
  import opened Workqueue

  /** Error numbers; handlers return their negation. */
  const EINVAL: int := 22
  const EFAULT: int := 14

  /** The interrupt handler's return value `IRQ_HANDLED`. */
  const IRQ_HANDLED: int := 1

  /**
   * `_IO(type, nr)` in the generic `_IOC` layout: an ioctl number with no
   * direction (direction bits 0) and no argument size, the type in bits 8..15
   * and the number in bits 0..7.
   */
  function Io(kind: nat, nr: nat): (cmd: nat)
    requires kind < 256 && nr < 256
    ensures cmd < 0x1_0000
    ensures cmd / 256 == kind && cmd % 256 == nr
  {
    kind * 256 + nr
  }

  /** `GPU_TRIGGER_IOCTL`, defined as `_IO('K', 1)`. */
  const GPU_TRIGGER_IOCTL: nat := Io('K' as int, 1)

  /**
   * The mode a write of `buf` to the `mode` attribute installs: the text up
   * to its NUL must parse as a base-10 `int` and lie in 0..2.
   */
  function AcceptedMode(buf: string): (r: Option<int>)
    ensures r.Some? ==> 0 <= r.value <= 2
    ensures r.Some? ==> ParseInt(CString(buf)) == r
  {
    match ParseInt(CString(buf))
    case None => None
    case Some(v) => if 0 <= v <= 2 then Some(v) else None
  }

  /**
   * What the mode attribute shows for mode `m`: its `%d` rendering and a
   * newline, with no NUL; a one-digit mode shows as that digit and the newline.
   */
  function ModeText(m: int): (r: string)
    ensures |r| >= 2 && r[|r| - 1] == '\n' && r[..|r| - 1] == FormatInt(m)
    ensures NoNul(r)
    ensures 0 <= m <= 9 ==> r == [DigitChar(m), '\n']
  {
    var r := FormatInt(m) + "\n";
    assert r[..|r| - 1] == FormatInt(m);
    assert NoNul(r) by {
      var d := Digits(if m < 0 then -m else m);
      assert forall i :: 0 <= i < |d| ==> IsDigit(d[i]);
    }
    r
  }

  /**
   * Writing back what the attribute shows is accepted and installs the same
   * mode, for every mode the driver can be in; a mode outside 0..2 is never
   * accepted.
   */
  lemma ShowThenStore(m: int)
    ensures 0 <= m <= 2 <==> AcceptedMode(ModeText(m)) == Some(m)
  {
    var t := ModeText(m);
    CStringOfNoNul(t);
    if INT_MIN <= m <= INT_MAX {
      FormatParseRoundTrip(m);
    }
  }

  /**
   * `strlen`: the index of the first NUL in a buffer that holds one.
   */
  method StrLen(s: array<char>) returns (n: nat)
    requires exists k :: 0 <= k < s.Length && s[k] == '\0'
    ensures n < s.Length && s[n] == '\0'
    ensures forall i :: 0 <= i < n ==> s[i] != '\0'
  {
    n := 0;
    while s[n] != '\0'
      invariant n < s.Length
      invariant exists k :: n <= k < s.Length && s[k] == '\0'
      invariant forall i :: 0 <= i < n ==> s[i] != '\0'
      decreases s.Length - n
    {
      n := n + 1;
    }
  }

  /** An open file on the device; `pos` is the file position `*ppos` the read handler uses. */
  class OpenFile {
    var pos: int

    /** `dev_open` keeps the position the open starts with: 0. */
    constructor ()
      ensures pos == 0
    {
      pos := 0;
    }
  }

  /** The driver's static state. */
  class Driver {
    /** `trigger_mode` */
    var mode: int
    /** `result_buffer` */
    const buffer: array<char>
    /** `result_size` */
    var size: int
    /** `gpu_work` */
    const work: WorkItem
    /** The tick count of the last completed run, `None` before the first. */
    ghost var lastTick: Option<nat>

    /** The result buffer holds a NUL-terminated string of `size` bytes. */
    ghost predicate CacheValid()
      reads this, buffer
    {
      && buffer.Length == RESULT_BUFFER_SIZE
      && 0 <= size < buffer.Length
      && buffer[size] == '\0'
      && NoNul(buffer[..size])
    }

    /** The cached record: the bytes `dev_read` hands out. */
    function Record(): string
      reads this, buffer
      requires CacheValid()
    {
      buffer[..size]
    }

    ghost predicate Valid()
      reads this, buffer, work
    {
      && CacheValid()
      && work.Valid()
      && 0 <= mode <= 2
      && (lastTick.None? <==> work.runs == 0)
      && (lastTick.None? ==> size == 0)
      && (lastTick.Some? ==> Record() == Report(lastTick.value))
    }

    /** The module's static initialisers and `INIT_WORK`: mode 0, an empty zeroed buffer, idle work. */
    constructor ()
      ensures Valid() && fresh(buffer) && fresh(work)
      ensures mode == 0 && Record() == [] && lastTick == None
      ensures !work.pending && work.submissions == 0
    {
      mode := 0;
      buffer := new char[RESULT_BUFFER_SIZE](_ => '\0');
      size := 0;
      work := new WorkItem();
      lastTick := None;
    }

    /**
     * `trigger_gpu_computation` under `result_lock`: `snprintf` writes the
     * status line for `tick` and its NUL, and `result_size` becomes its
     * `strlen`. The previous record is overwritten whatever it was.
     */
    method TriggerGpuComputation(tick: nat)
      requires CacheValid()
      modifies this`size, buffer
      ensures CacheValid()
      ensures Record() == Report(tick)
      ensures 0 < size <= RESULT_BUFFER_SIZE - 1
      ensures buffer[size + 1..] == old(buffer[..])[size + 1..]
    {
      var text := Report(tick);
      var i := 0;
      while i < |text|
        invariant 0 <= i <= |text|
        invariant buffer[..i] == text[..i]
        invariant forall j :: i <= j < buffer.Length ==> buffer[j] == old(buffer[j])
      {
        buffer[i] := text[i];
        i := i + 1;
      }
      buffer[|text|] := '\0';
      assert buffer[..|text|] == text;
      assert buffer[|text| + 1..] == old(buffer[|text| + 1..]);
      assert forall j :: 0 <= j < |text| ==> buffer[j] != '\0';
      size := StrLen(buffer);
      assert size == |text|;
    }

    /** `gpu_work_handler`: runs the computation. */
    method GpuWorkHandler(tick: nat)
      requires CacheValid()
      modifies this`size, buffer
      ensures CacheValid()
      ensures Record() == Report(tick)
      ensures buffer[size + 1..] == old(buffer[..])[size + 1..]
    {
      TriggerGpuComputation(tick);
    }

    /**
     * The worker pool running `gpu_work` at tick `tick`: if the item is
     * pending, its pending bit is cleared and the handler stores a fresh
     * record; otherwise nothing happens.
     */
    method ProcessWork(tick: nat) returns (ran: bool)
      requires Valid()
      modifies this`size, this`lastTick, buffer, work
      ensures Valid()
      ensures ran == old(work.pending) && !work.pending
      ensures ran ==> lastTick == Some(tick) && Record() == Report(tick)
      ensures !ran ==> size == old(size) && buffer[..] == old(buffer[..]) && lastTick == old(lastTick)
      ensures work.runs == old(work.runs) + (if ran then 1 else 0)
      ensures work.submissions == old(work.submissions)
    {
      ran := work.Claim();
      if ran {
        GpuWorkHandler(tick);
        lastTick := Some(tick);
      }
    }

    /** `my_gpio_isr`: schedules the job and reports the interrupt handled. */
    method GpioIsr() returns (ret: int)
      requires Valid()
      modifies work
      ensures Valid()
      ensures ret == IRQ_HANDLED
      ensures work.pending
      ensures work.submissions == old(work.submissions) + 1
      ensures work.runs == old(work.runs)
    {
      var _ := work.Schedule();
      ret := IRQ_HANDLED;
    }

    /**
     * `dev_ioctl`: `GPU_TRIGGER_IOCTL` schedules the job and returns 0; any
     * other command returns -EINVAL and schedules nothing.
     */
    method DevIoctl(cmd: nat) returns (ret: int)
      requires Valid()
      modifies work
      ensures Valid()
      ensures cmd == GPU_TRIGGER_IOCTL ==> ret == 0 && work.pending
      ensures cmd != GPU_TRIGGER_IOCTL ==> ret == -EINVAL && work.pending == old(work.pending)
      ensures work.submissions == old(work.submissions) + (if cmd == GPU_TRIGGER_IOCTL then 1 else 0)
      ensures work.runs == old(work.runs)
    {
      if cmd == GPU_TRIGGER_IOCTL {
        var _ := work.Schedule();
        ret := 0;
      } else {
        ret := -EINVAL;
      }
    }

    /**
     * `mode_show`: the current mode as one decimal digit and a newline, and
     * the number of bytes written. Writing that text back installs the same mode.
     */
    method ModeShow() returns (text: string, ret: int)
      requires Valid()
      ensures ret == |text| == 2 && text[1] == '\n'
      ensures text[0] == DigitChar(mode)
      ensures AcceptedMode(text) == Some(mode)
    {
      text := ModeText(mode);
      ret := |text|;
      ShowThenStore(mode);
    }

    /**
     * `mode_store` for the written bytes `buf`: text that does not parse as a
     * base-10 `int`, or a value outside 0..2, is rejected with -EINVAL and
     * changes nothing; otherwise the mode becomes the value, the job is
     * scheduled exactly when the value is 2, and the byte count is returned.
     */
    method ModeStore(buf: string) returns (ret: int)
      requires Valid()
      modifies this`mode, work
      ensures Valid()
      ensures AcceptedMode(buf).None? ==> ret == -EINVAL && mode == old(mode)
      ensures AcceptedMode(buf).Some? ==> ret == |buf| && mode == AcceptedMode(buf).value
      ensures work.pending == (old(work.pending) || AcceptedMode(buf) == Some(2))
      ensures work.submissions == old(work.submissions) + (if AcceptedMode(buf) == Some(2) then 1 else 0)
      ensures work.runs == old(work.runs)
    {
      var parsed := ParseInt(CString(buf));
      if parsed.None? {
        return -EINVAL;
      }
      var val := parsed.value;
      if val < 0 || val > 2 {
        return -EINVAL;
      }
      mode := val;
      if mode == 2 {
        var _ := work.Schedule();
      }
      ret := |buf|;
    }

    /**
     * `dev_read` of up to `count` bytes into the user buffer `dst`. A file
     * already past position 0 gets 0 (end of data), and so does any file
     * while the record is empty; a `count` below the record's length gets
     * -EINVAL; a destination that cannot take the whole record gets -EFAULT.
     * Otherwise the whole record is copied, its length returned and the file
     * position set to it. The record itself is never changed, and neither is
     * anything else on the error and end-of-data paths.
     */
    method DevRead(file: OpenFile, dst: array<char>, count: nat) returns (ret: int)
      requires Valid()
      requires dst != buffer
      modifies file`pos, dst
      ensures Valid() && Record() == old(Record())
      ensures old(file.pos) > 0 ==> ret == 0
      ensures old(file.pos) <= 0 && size == 0 ==> ret == 0
      ensures old(file.pos) <= 0 && 0 < size && count < size ==> ret == -EINVAL
      ensures old(file.pos) <= 0 && 0 < size <= count && dst.Length < size ==> ret == -EFAULT
      ensures ret <= 0 ==> file.pos == old(file.pos) && dst[..] == old(dst[..])
      ensures old(file.pos) <= 0 && 0 < size <= count && size <= dst.Length ==>
                ret == size && file.pos == size && dst[..size] == Record() && dst[size..] == old(dst[size..])
    {
      if file.pos > 0 {
        return 0;
      }
      if size == 0 {
        return 0;
      }
      if count < size {
        return -EINVAL;
      }
      if dst.Length < size {
        return -EFAULT;
      }
      var i := 0;
      while i < size
        invariant 0 <= i <= size
        invariant dst[..i] == buffer[..i]
        invariant forall j :: i <= j < dst.Length ==> dst[j] == old(dst[j])
      {
        dst[i] := buffer[i];
        i := i + 1;
      }
      file.pos := size;
      ret := size;
    }
  }
}
