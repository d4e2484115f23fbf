/**
 * The deferred job `gpu_work` and the kernel's `schedule_work` semantics:
 * queueing a work item that is already pending does nothing, so triggers
 * that arrive before the worker takes the item coalesce into one run.
 */
module Workqueue {

  /**
   * A `struct work_struct`. `pending` is its pending bit; the ghost counters
   * record how often it was submitted, how often a submission actually
   * queued it, and how often the worker took it off the queue.
   */
  class WorkItem {
    var pending: bool
    ghost var submissions: nat
    ghost var queued: nat
    ghost var runs: nat

    /** Every queued instance is either still pending or was run exactly once. */
    ghost predicate Valid()
      reads this
    {
      && queued == runs + (if pending then 1 else 0)
      && queued <= submissions
    }

    /** `INIT_WORK`: an idle item that was never submitted. */
    constructor ()
      ensures Valid()
      ensures !pending && submissions == 0 && queued == 0 && runs == 0
    {
      pending := false;
      submissions, queued, runs := 0, 0, 0;
    }

    /**
     * `schedule_work`: queues the item if it is idle and reports whether it
     * did; on a pending item it is a no-op apart from being counted.
     */
    method Schedule() returns (wasQueued: bool)
      requires Valid()
      modifies this
      ensures Valid()
      ensures pending
      ensures wasQueued == !old(pending)
      ensures submissions == old(submissions) + 1
      ensures queued == old(queued) + (if wasQueued then 1 else 0)
      ensures runs == old(runs)
    {
      wasQueued := !pending;
      submissions := submissions + 1;
      if wasQueued {
        pending := true;
        queued := queued + 1;
      }
    }

    /**
     * The worker pool taking the item: when it is pending its pending bit is
     * cleared before the handler is called, and the run is counted.
     */
    method Claim() returns (claimed: bool)
      requires Valid()
      modifies this
      ensures Valid()
      ensures !pending
      ensures claimed == old(pending)
      ensures runs == old(runs) + (if claimed then 1 else 0)
      ensures submissions == old(submissions) && queued == old(queued)
    {
      claimed := pending;
      if claimed {
        pending := false;
        runs := runs + 1;
      }
    }
  }
}
