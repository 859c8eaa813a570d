/**
 * `ApprovalEventComponent`: a run-scoped copy of one configured step. Its
 * `step` is the single bit `1 << s` of the configured step `s`, `logic` is
 * the AND/OR voting rule, and it owns its contributor rows.
 */
module EventComponents {
  import opened Base
  import opened Configuration
  import opened EventContributors

  datatype EventComponent = EventComponent(
    name: string,
    step: Mask,
    logic: Logic,
    color: string,
    approvedAt: Option<Time>,
    rejectedAt: Option<Time>,
    cancelledAt: Option<Time>,
    rollbackAt: Option<Time>,
    contributors: seq<EventContributor>)
  {
    /** `is_approved`: `approved_at` is set. */
    predicate IsApproved() { approvedAt.Some? }

    /** `is_rejected`: `rejected_at` is set. */
    predicate IsRejected() { rejectedAt.Some? }

    /** `is_cancelled`: `cancelled_at` is set. */
    predicate IsCancelled() { cancelledAt.Some? }

    /** `is_rollback`: `rollback_at` is set. */
    predicate IsRollback() { rollbackAt.Some? }

    /** `whereNull('approved_at')`: still waiting for approval. */
    predicate Pending() { approvedAt.None? }
  }

  /**
   * The component as the run materialisation creates it for a configured
   * step: the step's bit, its name, logic and colour, its contributor rows,
   * and `approved_at` stamped when no contributor resolved.
   */
  function NewComponent(spec: ComponentSpec, rows: seq<EventContributor>, now: Time): (c: EventComponent)
    ensures c.step == Bit(spec.step) && c.logic == spec.logic && c.contributors == rows
    ensures c.IsApproved() <==> |rows| == 0
    ensures !c.IsRejected() && !c.IsCancelled() && !c.IsRollback()
  {
    EventComponent(spec.name, Bit(spec.step), spec.logic, spec.color,
                   if |rows| == 0 then Some(now) else None, None, None, None, rows)
  }
}
