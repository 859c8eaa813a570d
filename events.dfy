/**
 * `ApprovalEvent`: the run of one requestable entity. `step` accumulates the
 * bits of the approved components, `target` holds the bits of all included
 * components. The derived attributes (`is_*`, `component`,
 * `current_component`, `can_approve`) are functions of the stored fields and
 * of the run's components.
 */
module Events {
  import opened Base
  import opened Configuration
  import opened EventContributors
  import opened EventComponents

  /** `ApprovalStatusEnum`. */
  datatype Status = Draft | Approved | Rejected | Canceled

  /** The run's natural key: `(requestable_type, requestable_id)`. */
  datatype RunKey = RunKey(requestableType: string, requestableId: string)

  datatype ApprovalEvent = ApprovalEvent(
    key: RunKey,
    approvalId: Option<nat>,
    mode: RunMode,
    status: Status,
    step: Mask,
    target: Mask,
    approvedAt: Option<Time>,
    rejectedAt: Option<Time>,
    cancelledAt: Option<Time>,
    rollbackAt: Option<Time>,
    components: seq<EventComponent>)
  {
    /** `is_approved`: `approved_at` is set. */
    predicate IsApproved() { approvedAt.Some? }

    /** `is_rejected`: `rejected_at` is set. */
    predicate IsRejected() { rejectedAt.Some? }

    /** `is_cancelled`: `cancelled_at` is set. */
    predicate IsCancelled() { cancelledAt.Some? }

    /** `is_rollback`: `rollback_at` is set. */
    predicate IsRollback() { rollbackAt.Some? }

    /** The guard of approve, reject and cancel: a finished run absorbs them. */
    predicate Terminal() { IsApproved() || IsRejected() || IsCancelled() }
  }

  /** The OR of the components' step masks. */
  function AllBits(comps: seq<EventComponent>): (m: Mask)
    ensures forall b :: b in m <==> exists k :: 0 <= k < |comps| && b in comps[k].step
    decreases |comps|
  {
    if |comps| == 0 then {}
    else
      var n := |comps| - 1;
      var m := AllBits(comps[..n]) + comps[n].step;
      assert forall k :: 0 <= k < n ==> comps[..n][k] == comps[k];
      m
  }

  /** The OR of the step masks of the approved components. */
  function ApprovedBits(comps: seq<EventComponent>): (m: Mask)
    ensures forall b :: b in m <==> exists k :: 0 <= k < |comps| && comps[k].IsApproved() && b in comps[k].step
    decreases |comps|
  {
    if |comps| == 0 then {}
    else
      var n := |comps| - 1;
      var m := ApprovedBits(comps[..n]) + (if comps[n].IsApproved() then comps[n].step else {});
      assert forall k :: 0 <= k < n ==> comps[..n][k] == comps[k];
      m
  }

  /** Some component got at least one contributor row. */
  predicate AnyVoter(comps: seq<EventComponent>) {
    exists k :: 0 <= k < |comps| && |comps[k].contributors| > 0
  }

  /** How the aggregates of the components grow when one is appended. */
  lemma AppendComponent(comps: seq<EventComponent>, c: EventComponent)
    ensures AllBits(comps + [c]) == AllBits(comps) + c.step
    ensures ApprovedBits(comps + [c]) == ApprovedBits(comps) + (if c.IsApproved() then c.step else {})
    ensures AnyVoter(comps + [c]) <==> AnyVoter(comps) || |c.contributors| > 0
  {
    assert (comps + [c])[..|comps|] == comps;
    if AnyVoter(comps) {
      var k :| 0 <= k < |comps| && |comps[k].contributors| > 0;
      assert (comps + [c])[k] == comps[k];
    }
  }

  /** The component queries of the run, as their `where` clauses. */
  datatype Selector =
    | PendingCovering(mask: Mask)   // whereNull('approved_at') and (step & mask) = mask
    | PendingWithUser(user: UserId) // whereNull('approved_at') and a contributor row of the user
    | Pending                       // whereNull('approved_at')
    | OutsideStep(runStep: Mask)    // (step & runStep) = 0

  predicate Selects(sel: Selector, c: EventComponent) {
    match sel
    case PendingCovering(m) => c.Pending() && Covers(c.step, m)
    case PendingWithUser(u) => c.Pending() && u in UserIds(c.contributors)
    case Pending => c.Pending()
    case OutsideStep(s) => c.step * s == {}
  }

  /**
   * `i` is what `->orderBy('step')->first()` returns: a selected component
   * whose step is the least; among equal steps, the earliest row.
   */
  predicate IsLowest(comps: seq<EventComponent>, sel: Selector, i: nat) {
    && i < |comps|
    && Selects(sel, comps[i])
    && (forall k :: 0 <= k < i && Selects(sel, comps[k]) ==>
          MaskValue(comps[i].step) < MaskValue(comps[k].step))
    && (forall k :: i < k < |comps| && Selects(sel, comps[k]) ==>
          MaskValue(comps[i].step) <= MaskValue(comps[k].step))
  }

  /** The lowest-step selected component, if any. */
  function Lowest(comps: seq<EventComponent>, sel: Selector): (r: Option<nat>)
    ensures r.Some? ==> IsLowest(comps, sel, r.value)
    ensures r.None? ==> forall k :: 0 <= k < |comps| ==> !Selects(sel, comps[k])
    decreases |comps|
  {
    if |comps| == 0 then None
    else
      var n := |comps| - 1;
      var r := Lowest(comps[..n], sel);
      assert forall k :: 0 <= k < n ==> comps[..n][k] == comps[k];
      if !Selects(sel, comps[n]) then r
      else if r.Some? && MaskValue(comps[r.value].step) <= MaskValue(comps[n].step) then r
      else Some(n)
  }

  /** Two queries that select the same rows return the same row. */
  lemma {:induction false} LowestOfSameSelection(comps: seq<EventComponent>, s1: Selector, s2: Selector)
    requires forall k :: 0 <= k < |comps| ==> (Selects(s1, comps[k]) <==> Selects(s2, comps[k]))
    ensures Lowest(comps, s1) == Lowest(comps, s2)
    decreases |comps|
  {
    if |comps| > 0 {
      LowestOfSameSelection(comps[..|comps| - 1], s1, s2);
    }
  }

  /** The `component` attribute: the lowest-step component whose bit is not in `step`. */
  function Component(e: ApprovalEvent): (r: Option<nat>)
    ensures r.Some? ==> IsLowest(e.components, OutsideStep(e.step), r.value)
    ensures r.None? ==> forall k :: 0 <= k < |e.components| ==> e.components[k].step * e.step != {}
  {
    Lowest(e.components, OutsideStep(e.step))
  }

  /**
   * The `current_component` attribute: the latest-created component all of
   * whose bits are in `step` (`(step & ~run.step) = 0`).
   */
  function CurrentComponent(e: ApprovalEvent): (r: Option<nat>)
    ensures r.Some? ==> r.value < |e.components| && Covers(e.step, e.components[r.value].step)
    ensures r.Some? ==> forall k :: r.value < k < |e.components| ==> !Covers(e.step, e.components[k].step)
    ensures r.None? ==> forall k :: 0 <= k < |e.components| ==> !Covers(e.step, e.components[k].step)
  {
    var r := LastIndex(e.components, (c: EventComponent) => c.step - e.step == {});
    forall k | 0 <= k < |e.components|
      ensures (e.components[k].step - e.step == {}) <==> Covers(e.step, e.components[k].step)
    {
      EmptyDifference(e.components[k].step, e.step);
    }
    r
  }

  /** `(int) Auth::id()`: a guest is user 0. */
  function AuthUser(authId: Option<UserId>): UserId {
    authId.GetOr(0)
  }

  /**
   * The `can_approve` attribute for the authenticated user: the run is open,
   * its `component` exists and is open, and either it has no contributor or
   * the user holds one of its rows that has not approved yet.
   */
  function CanApprove(e: ApprovalEvent, authId: Option<UserId>): (r: bool)
    ensures e.Terminal() ==> !r
    ensures Component(e).None? ==> !r
    ensures r ==> var c := e.components[Component(e).value];
                  !c.IsApproved() && !c.IsCancelled() && !c.IsRejected()
    ensures r && Component(e).Some? && |e.components[Component(e).value].contributors| > 0 ==>
              exists k :: 0 <= k < |e.components[Component(e).value].contributors| &&
                          e.components[Component(e).value].contributors[k].userId == AuthUser(authId) &&
                          !e.components[Component(e).value].contributors[k].IsApproved()
    ensures !e.Terminal() && Component(e).Some? &&
            (var c := e.components[Component(e).value];
             && !c.IsApproved() && !c.IsCancelled() && !c.IsRejected()
             && (|c.contributors| == 0 ||
                 exists k :: 0 <= k < |c.contributors| &&
                             c.contributors[k].userId == AuthUser(authId) && !c.contributors[k].IsApproved()))
            ==> r
  {
    if e.IsApproved() || e.IsCancelled() || e.IsRejected() then false
    else match Component(e)
      case None => false
      case Some(i) =>
        var c := e.components[i];
        if c.IsApproved() || c.IsCancelled() || c.IsRejected() then false
        else if |c.contributors| == 0 then true
        else exists k :: 0 <= k < |c.contributors| &&
                         c.contributors[k].userId == AuthUser(authId) && c.contributors[k].approvedAt.None?
  }
}
