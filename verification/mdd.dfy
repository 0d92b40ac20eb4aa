/** The Modified Due Date priority rule (jasima's `MDD`, after Baker and
    Bertrand 1982 and Baker and Kanet 1983): a job's priority is the negated
    larger of its remaining processing time and its time to the due date, a
    compromise between shortest-remaining-processing-time (SRPT) and
    earliest-due-date (EDD). Higher values are dispatched first. Times are
    exact reals here, not doubles. */
module Mdd {

  /** What the rule reads of a `PrioRuleTarget`; `id` stands for everything
      else the target carries. */
  datatype Target = Target(id: nat, remainingProcTime: real, dueDate: real)

  /** `calcPrio(job)` at shop time `now`. The priority is bounded by both
      the SRPT score `-remainingProcTime` and the EDD score `now - dueDate`,
      and equals one of them. */
  function CalcPrio(job: Target, now: real): (p: real)
    ensures p <= -job.remainingProcTime
    ensures p <= now - job.dueDate
    ensures p == -job.remainingProcTime || p == now - job.dueDate
  {
    -Max(job.remainingProcTime, job.dueDate - now)
  }

  function Max(a: real, b: real): real
  {
    if a >= b then a else b
  }

  /** With little slack the rule is SRPT, otherwise it is EDD. */
  lemma SrptOrEdd(job: Target, now: real)
    ensures job.dueDate - now <= job.remainingProcTime ==> CalcPrio(job, now) == -job.remainingProcTime
    ensures job.dueDate - now > job.remainingProcTime ==> CalcPrio(job, now) == now - job.dueDate
  {
  }

  /** The priority is the smaller of the two scores: the greatest value
      below both. */
  lemma GreatestLowerBound(job: Target, now: real, q: real)
    requires q <= -job.remainingProcTime && q <= now - job.dueDate
    ensures q <= CalcPrio(job, now)
  {
  }

  /** More remaining work never raises the priority. */
  lemma MonotoneInRemainingWork(job: Target, more: real, now: real)
    requires more >= job.remainingProcTime
    ensures CalcPrio(job.(remainingProcTime := more), now) <= CalcPrio(job, now)
  {
  }

  /** A later due date never raises the priority. */
  lemma MonotoneInDueDate(job: Target, later: real, now: real)
    requires later >= job.dueDate
    ensures CalcPrio(job.(dueDate := later), now) <= CalcPrio(job, now)
  {
  }

  /** As time passes a waiting job's priority never falls. */
  lemma MonotoneInTime(job: Target, now: real, later: real)
    requires later >= now
    ensures CalcPrio(job, later) >= CalcPrio(job, now)
  {
  }

  /** The priority depends on the remaining processing time, the due date
      and the current time only. */
  lemma DependsOnlyOnTimes(a: Target, b: Target, now: real)
    requires a.remainingProcTime == b.remainingProcTime && a.dueDate == b.dueDate
    ensures CalcPrio(a, now) == CalcPrio(b, now)
  {
  }
}
