# gpio_trigger: trigger-to-job dispatch, modelled in Dafny

The gpio_trigger driver runs a simulated GPU computation in response to three
kinds of trigger: a rising edge on a GPIO line (the interrupt handler
`my_gpio_isr`), the `GPU_TRIGGER_IOCTL` command on its character device
(`dev_ioctl`), and a write of `2` to its `mode` class attribute (`mode_store`).
All three call `schedule_work(&gpu_work)`. The kernel's workqueue later runs
`gpu_work_handler`, which formats a status line holding the current tick count
into the 128-byte `result_buffer` under `result_lock` and records its length
in `result_size`. A `read` on the device (`dev_read`) hands out that line once
per open file. The `mode` attribute keeps a value in 0..2 (`trigger_mode`),
shown by `mode_show` and set by `mode_store`.

The model has six modules:

- `Wrappers` holds the `Option` type.
- `Decimal` holds the text conversions the driver relies on. These are the
  `%lu` and `%d` renderings of `sprintf`/`snprintf`, the kernel's
  `kstrtoint(buf, 10, &val)`, and the C view of a buffer as the text before
  its first NUL. The `kstrtoint` model follows the rules of the kernel's
  `lib/kstrtox.c`, which is not part of this model. It accepts at most one
  sign, then one or more digits, then at most one newline. The value must fit
  a C `int`.
- `Computation` holds the status line `"GPU computation done! jiffies=<tick>\n"`
  as `snprintf` bounds it to the buffer, and a reader that recovers the tick
  from it.
- `Workqueue` holds `WorkItem`, which is `gpu_work`. It is a class with the
  pending bit and ghost counters of submissions, queued instances and runs.
  `Schedule` is `schedule_work`: it does nothing on a pending item, so
  triggers coalesce.
- `GpioTrigger` holds `Driver`, the driver's static state. Its fields are
  `mode`, the `buffer` array, `size` and `work`. Every handler is a method of
  `Driver`. `OpenFile` carries the per-open file position `*ppos`.
  `StrLen` is `strlen`.
- `Scenarios` holds the mode writes `"3"`, `"-1"`, `"abc"` (rejected) and
  `"2"` (accepted). It also holds two client runs: a burst of all
  three triggers coalescing into one run, and single-shot read sessions.

Each section that holds `result_lock` is one method call. The tick count
(`jiffies`) is a parameter of the worker step.

## Model

| member | source | states |
|---|---|---|
| `Decimal.Digits` | gpu_trigger_project/driver/gpio_trigger.c:43-44 | `%lu` yields a non-empty run of decimal digits with no leading zero (except for 0 itself) |
| `Decimal.DigitsRoundTrip` | gpu_trigger_project/driver/gpio_trigger.c:43-44 | reading back the digits `%lu` wrote gives the number written |
| `Decimal.DigitsInjective` | gpu_trigger_project/driver/gpio_trigger.c:43-44 | different numbers render to different digit strings |
| `Decimal.DigitsLength` | gpu_trigger_project/driver/gpio_trigger.c:43-44 | a number below 10^k renders in at most k digits |
| `Decimal.FormatInt` | gpu_trigger_project/driver/gpio_trigger.c:124 | `%d` output is non-empty and starts with `-` exactly for negative values |
| `Decimal.CString` | gpu_trigger_project/driver/gpio_trigger.c:133 | `kstrtoint` sees the longest NUL-free prefix of the written buffer, which ends at the first NUL |
| `Decimal.CStringOfNoNul` | gpu_trigger_project/driver/gpio_trigger.c:133 | a buffer without NUL is seen whole |
| `Decimal.ParseInt` | gpu_trigger_project/driver/gpio_trigger.c:133-134 | a successful base-10 parse yields a value in the C `int` range, and the text holds a digit |
| `Decimal.RejectsForeignChar` | gpu_trigger_project/driver/gpio_trigger.c:133-134 | any character other than a digit, sign or newline makes the parse fail |
| `Decimal.FormatParseRoundTrip` | gpu_trigger_project/driver/gpio_trigger.c:124 | every C `int` rendered by `%d`, with or without the trailing newline, parses back to itself |
| `Computation.Message` | gpu_trigger_project/driver/gpio_trigger.c:43-44 | the unbounded formatted text is the fixed prefix, the tick's `%lu` digits and one newline, with no NUL |
| `Computation.Bounded` | gpu_trigger_project/driver/gpio_trigger.c:43-44 | `snprintf` keeps a prefix of the formatted text of at most size-1 bytes, the whole text when it fits |
| `Computation.Report` | gpu_trigger_project/driver/gpio_trigger.c:43-45 | the stored record starts with the fixed prefix, is longer than it and at most 127 bytes, and holds no NUL |
| `Computation.ReportFits` | gpu_trigger_project/driver/gpio_trigger.c:43-45 | for every 64-bit tick the message is never cut: the record is the whole message, at most 51 bytes |
| `Computation.ReportTickRoundTrip` | gpu_trigger_project/driver/gpio_trigger.c:43-44 | the tick count can be read back out of the record of that run |
| `Computation.ReportsDistinct` | gpu_trigger_project/driver/gpio_trigger.c:43-44 | runs at different ticks leave different records |
| `Workqueue.WorkItem.constructor` | gpu_trigger_project/driver/gpio_trigger.c:213 | `INIT_WORK` leaves the job idle and never submitted |
| `Workqueue.WorkItem.Schedule` | gpu_trigger_project/driver/gpio_trigger.c:61 | `schedule_work` leaves the job pending and queues a new instance exactly when it was idle; at most one instance is ever outstanding |
| `Workqueue.WorkItem.Claim` | gpu_trigger_project/driver/gpio_trigger.c:51-55 | the worker takes a pending job once, clearing the pending bit and counting the run; an idle job is left as it is |
| `GpioTrigger.Io` | gpu_trigger_project/driver/gpio_trigger.c:21 | `_IO(type, nr)` encodes the type in bits 8..15 and the number in bits 0..7, and both decode back |
| `GpioTrigger.AcceptedMode` | gpu_trigger_project/driver/gpio_trigger.c:133-137 | a write is accepted only when its text parses as an `int` in 0..2, and then installs that value |
| `GpioTrigger.ModeText` | gpu_trigger_project/driver/gpio_trigger.c:124 | `sprintf(buf, "%d\n", mode)` gives the `%d` rendering and a newline, with no NUL; a one-digit mode shows as its digit and the newline |
| `GpioTrigger.ShowThenStore` | gpu_trigger_project/driver/gpio_trigger.c:121-156 | writing back what the attribute shows installs the same mode exactly when the mode is in 0..2 |
| `GpioTrigger.StrLen` | gpu_trigger_project/driver/gpio_trigger.c:45 | `strlen` returns the index of the first NUL |
| `GpioTrigger.OpenFile.constructor` | gpu_trigger_project/driver/gpio_trigger.c:66 | an open file starts at position 0 |
| `GpioTrigger.Driver.constructor` | gpu_trigger_project/driver/gpio_trigger.c:27-34 | initial state is mode 0, an empty record and an idle job |
| `GpioTrigger.Driver.TriggerGpuComputation` | gpu_trigger_project/driver/gpio_trigger.c:37-49 | the record becomes the status line for the given tick whatever it was before; `result_size` is its length, between 1 and 127; the buffer beyond the NUL is untouched |
| `GpioTrigger.Driver.GpuWorkHandler` | gpu_trigger_project/driver/gpio_trigger.c:51-55 | the handler stores the status line for the given tick |
| `GpioTrigger.Driver.ProcessWork` | gpu_trigger_project/driver/gpio_trigger.c:51-55 | a pending job runs once and stores the record of this tick, leaving the job idle; an idle job changes nothing; the mode is never touched |
| `GpioTrigger.Driver.GpioIsr` | gpu_trigger_project/driver/gpio_trigger.c:58-63 | the interrupt schedules the job once and returns `IRQ_HANDLED`; mode and record are untouched |
| `GpioTrigger.Driver.DevIoctl` | gpu_trigger_project/driver/gpio_trigger.c:69-79 | `GPU_TRIGGER_IOCTL` schedules the job and returns 0; any other command returns -EINVAL and schedules nothing |
| `GpioTrigger.Driver.ModeShow` | gpu_trigger_project/driver/gpio_trigger.c:121-125 | shows the mode as its digit and a newline, returns 2, changes nothing, and the text written back selects the same mode |
| `GpioTrigger.Driver.ModeStore` | gpu_trigger_project/driver/gpio_trigger.c:127-156 | unparsable or out-of-range text returns -EINVAL and changes nothing; otherwise the mode becomes the value, the job is submitted exactly once when the value is 2 and not otherwise, and the byte count is returned |
| `GpioTrigger.Driver.DevRead` | gpu_trigger_project/driver/gpio_trigger.c:82-110 | position > 0 gives 0; empty record gives 0; a short `count` gives -EINVAL; a destination too small gives -EFAULT; all four leave the position and destination unchanged. Otherwise the whole record is copied, its length returned and the position set to it. The record is never modified |
| `Scenarios.ThreeRejected` | gpu_trigger_project/driver/gpio_trigger.c:136-137 | writing `"3"` is rejected |
| `Scenarios.MinusOneRejected` | gpu_trigger_project/driver/gpio_trigger.c:136-137 | writing `"-1"` is rejected |
| `Scenarios.NonNumbersRejected` | gpu_trigger_project/driver/gpio_trigger.c:133-134 | writing `"abc"` or `" 1"` is rejected |
| `Scenarios.TwoAccepted` | gpu_trigger_project/driver/gpio_trigger.c:149-152 | writing `"2"` or `"2\n"` selects mode 2 |
| `Scenarios.BurstCoalesces` | gpu_trigger_project/driver/gpio_trigger.c:58-79 | an interrupt, the ioctl and a write of 2 on an idle job are three submissions and one run, whose record is stored; a second worker step finds nothing to run |
| `Scenarios.SingleShotSessions` | gpu_trigger_project/driver/gpio_trigger.c:87-109 | after a run, a session's first read returns the whole record and its second returns 0; a new session gets the record again |
| `Scenarios.EmptyCacheRead` | gpu_trigger_project/driver/gpio_trigger.c:91-94 | before any run a read returns 0 at once |

## Left out

- Module init and exit (lines 161-234) are not modelled. That covers chrdev, class, device and cdev registration, the sysfs file, the GPIO request and the IRQ mapping: registration with no logic to state. `Driver.constructor` stands for the static initialisers and `INIT_WORK`. The model assumes the work item is initialised before any trigger can arrive; the source requests the IRQ before it calls `INIT_WORK`, and that ordering is not captured.
- `gpio_trigger.mod.c` is generated module metadata and is not part of this model.
- `msleep(100)` and every `pr_info`/`pr_err`/`pr_alert` are not modelled: they are delay and logging only.
- Concurrency is not modelled. Each handler, and each section under `result_lock`, is one atomic method call. Interleavings of the interrupt, the workqueue thread and system calls are not verified. The kernel clears the pending bit before it calls the handler, so a trigger during a run queues one more run. Because a run is atomic here, that case cannot arise in the model.
- `cancel_work_sync` at exit, the drain of an in-flight run at teardown, is not modelled.
- `jiffies` is a parameter of `ProcessWork`. The real counter and its wrap-around are not modelled.
- `dev_release` returns 0 and does nothing, so it has no model. The ioctl's `arg` is unused by the source and is not modelled.
- `Decimal.ParseInt`: the error codes of `kstrtoint` (-EINVAL, -ERANGE) are merged into `None`, because `mode_store` turns every failure into -EINVAL.
- `GpioTrigger.Driver.ModeStore`: the sysfs `count` argument is the length of the written bytes `buf`, so the model returns `|buf|`. Each Dafny `char` of `buf` stands for one byte of the sysfs buffer, so `|buf|` counts bytes; multi-byte encodings are not modelled.
- `GpioTrigger.Driver.DevRead`: `copy_to_user` is modelled as faulting exactly when the destination array is shorter than the record. On a fault nothing is written, so a partial copy before the fault is not modelled.
- There is no separate validity flag: an empty record (`result_size == 0`) means no run has completed yet.
- `GpioTrigger.Io`: follows the generic `_IOC` layout, where "no direction" is 0. On architectures whose `_IO` sets a direction bit (powerpc, mips, sparc) the number differs and `cmd < 0x1_0000` does not hold.
