/**
 * The transition engine of `EventActionService` on run values: approve,
 * reject, cancel, rollback and force, and the component choice they share
 * (`getFirstEventComponent`). Each function gives the run (and the outcome)
 * one action produces from the run `store` returned; the service methods
 * are proved to produce exactly these.
 */
module Transitions {
  import opened Base
  import opened Configuration
  import opened EventContributors
  import opened EventComponents
  import opened Events
  import opened EventStore

  /**
   * The result of approve and reject: the run, or the validation error raised
   * when the acting user holds no row on a component that has rows.
   */
  datatype Outcome =
    | Done(event: ApprovalEvent)
    | NotAContributor(action: string, attribute: string, target: string)

  /**
   * `getFirstEventComponent`: with an explicit mask, the lowest pending
   * component carrying all its bits; otherwise, in a PARALLEL run, the lowest
   * pending component where the user holds a row, if any; otherwise the
   * lowest pending component.
   */
  function FirstEventComponent(e: ApprovalEvent, binary: Option<Mask>, user: UserId): (r: Option<nat>)
    ensures r.Some? ==> r.value < |e.components| && e.components[r.value].Pending()
    ensures binary.Some? && r.Some? ==> IsLowest(e.components, PendingCovering(binary.value), r.value)
    ensures binary.Some? && r.None? ==>
              forall k :: 0 <= k < |e.components| ==> !(e.components[k].Pending() && Covers(e.components[k].step, binary.value))
    ensures binary.None? && e.mode == Parallel &&
            (exists k :: 0 <= k < |e.components| && Selects(PendingWithUser(user), e.components[k])) ==>
              r.Some? && IsLowest(e.components, PendingWithUser(user), r.value)
    ensures binary.None? &&
            (e.mode == Sequential || forall k :: 0 <= k < |e.components| ==> !Selects(PendingWithUser(user), e.components[k])) ==>
              && (r.Some? ==> IsLowest(e.components, Pending, r.value))
              && (r.None? ==> forall k :: 0 <= k < |e.components| ==> e.components[k].IsApproved())
  {
    if binary.Some? then Lowest(e.components, PendingCovering(binary.value))
    else if e.mode == Parallel && Lowest(e.components, PendingWithUser(user)).Some? then
      Lowest(e.components, PendingWithUser(user))
    else Lowest(e.components, Pending)
  }

  /**
   * The run after component `i` is approved: the component is stamped, its
   * bits are ORed into `step`, and the run becomes APPROVED (stamped) when
   * `step` covers `target`, DRAFT otherwise.
   */
  function WithComponentApproved(e: ApprovalEvent, i: nat, now: Time): ApprovalEvent
    requires i < |e.components|
  {
    var c := e.components[i];
    var step := e.step + c.step;
    var done := Covers(step, e.target);
    e.(components := e.components[i := c.(approvedAt := Some(now))],
       step := step,
       status := if done then Approved else Draft,
       approvedAt := if done then Some(now) else e.approvedAt)
  }

  /** `approve`, applied to the run `store` returned. */
  function ApproveRun(e: ApprovalEvent, binary: Option<Mask>, user: User, now: Time): Outcome {
    if e.Terminal() then Done(e)
    else match FirstEventComponent(e, binary, user.id)
      case None => Done(e.(status := Approved, step := e.step + e.target, approvedAt := Some(now)))
      case Some(i) =>
        var c := e.components[i];
        if |c.contributors| == 0 then Done(WithComponentApproved(e, i, now))
        else match RowOf(c.contributors, user.id)
          case None => NotAContributor("Approve", c.name, GetUserName(user))
          case Some(j) =>
            var rows := c.contributors[j := c.contributors[j].Approved(now)];
            var voted := e.(components := e.components[i := c.(contributors := rows)]);
            if c.logic == Or || AllApproved(rows) then Done(WithComponentApproved(voted, i, now))
            else Done(voted)
  }

  /** `reject`, applied to the run `store` returned. */
  function RejectRun(e: ApprovalEvent, binary: Option<Mask>, user: User, now: Time): Outcome {
    if e.Terminal() then Done(e)
    else match FirstEventComponent(e, binary, user.id)
      case None => Done(e.(status := Rejected, rejectedAt := Some(now)))
      case Some(i) =>
        var c := e.components[i];
        match RowOf(c.contributors, user.id)
        case None => NotAContributor("Reject", c.name, GetUserName(user))
        case Some(j) =>
          var rows := c.contributors[j := c.contributors[j].Rejected(now)];
          if c.logic == Or || RejectionCount(rows) > ApprovalCount(rows) then
            Done(e.(components := e.components[i := c.(contributors := rows, rejectedAt := Some(now))],
                    status := Rejected, rejectedAt := Some(now)))
          else Done(e.(components := e.components[i := c.(contributors := rows)]))
  }

  /** The bulk update of cancel over the rows of one component. */
  function CancelRows(rows: seq<EventContributor>, now: Time): (r: seq<EventContributor>)
    ensures |r| == |rows|
    ensures forall k :: 0 <= k < |rows| ==> r[k] == rows[k].Cancelled(now)
  {
    seq(|rows|, k requires 0 <= k < |rows| => rows[k].Cancelled(now))
  }

  /** `cancel`, applied to the run `store` returned. */
  function CancelRun(e: ApprovalEvent, binary: Option<Mask>, user: UserId, now: Time): ApprovalEvent {
    if e.Terminal() then e
    else match FirstEventComponent(e, binary, user)
      case None => e.(status := Canceled, cancelledAt := Some(now))
      case Some(i) =>
        var c := e.components[i];
        e.(components := e.components[i := c.(contributors := CancelRows(c.contributors, now),
                                               cancelledAt := Some(now), approvedAt := None)],
           status := Rejected,
           step := e.step - c.step,
           cancelledAt := Some(now))
  }

  /**
   * The contributor rows of a component after rollback re-syncs them:
   * get-or-create for every entitled user, then every row of a user outside
   * `$collectorUser` deleted.
   */
  function SyncRows(rows: seq<EventContributor>, specs: seq<ContributorSpec>, groupTypes: set<string>,
                    dir: Directory): seq<EventContributor> {
    DropOthers(AddContributors(rows, specs, groupTypes, dir, GetOrCreate), EntitledUsers(specs, groupTypes, dir))
  }

  /**
   * `->whereNotIn('user_id', $collectorUser)->delete()`: the rows of the users
   * collected, in order (an empty collection deletes every row).
   */
  function DropOthers(rows: seq<EventContributor>, collected: set<UserId>): (r: seq<EventContributor>)
    ensures forall x :: x in r <==> x in rows && x.userId in collected
  {
    Filter(rows, (x: EventContributor) => x.userId in collected)
  }

  /** `updateOrCreate` keyed by the step bit: the first component holding exactly `mask`. */
  function ComponentWithStep(comps: seq<EventComponent>, mask: Mask): (r: Option<nat>)
    ensures r.Some? ==> r.value < |comps| && comps[r.value].step == mask
    ensures r.Some? ==> forall k :: 0 <= k < r.value ==> comps[k].step != mask
    ensures r.None? ==> forall k :: 0 <= k < |comps| ==> comps[k].step != mask
  {
    FirstIndex(comps, (c: EventComponent) => c.step == mask)
  }

  /** The components after rollback handles one resolved definition. */
  function Upsert(comps: seq<EventComponent>, spec: ComponentSpec, cfg: Config, groupTypes: set<string>,
                  dir: Directory, now: Time): seq<EventComponent> {
    var specs := ContributorsOf(cfg, spec.id);
    match ComponentWithStep(comps, Bit(spec.step))
    case Some(j) =>
      var c := comps[j];
      comps[j := c.(name := spec.name, logic := spec.logic, color := spec.color,
                    approvedAt := None, cancelledAt := None, rejectedAt := None, rollbackAt := Some(now),
                    contributors := SyncRows(c.contributors, specs, groupTypes, dir))]
    case None =>
      comps + [EventComponent(spec.name, Bit(spec.step), spec.logic, spec.color, None, None, None, Some(now),
                              SyncRows([], specs, groupTypes, dir))]
  }

  /** The components after rollback handles the resolved definitions in order. */
  function UpsertAll(comps: seq<EventComponent>, specs: seq<ComponentSpec>, cfg: Config, groupTypes: set<string>,
                     dir: Directory, now: Time): seq<EventComponent>
    decreases |specs|
  {
    if |specs| == 0 then comps
    else
      var n := |specs| - 1;
      Upsert(UpsertAll(comps, specs[..n], cfg, groupTypes, dir, now), specs[n], cfg, groupTypes, dir, now)
  }

  /** `rollback` with the re-resolved component definitions `specs`. */
  function ResetRun(e: ApprovalEvent, specs: seq<ComponentSpec>, cfg: Config, groupTypes: set<string>,
                    dir: Directory, now: Time): ApprovalEvent {
    e.(components := UpsertAll(e.components, specs, cfg, groupTypes, dir, now),
       status := Draft, step := {}, approvedAt := None, cancelledAt := None, rejectedAt := None,
       rollbackAt := Some(now), target := TargetOf(specs))
  }

  /** The component definitions rollback re-resolves for the run's approval. */
  function RollbackSpecs(e: ApprovalEvent, model: Requestable, cfg: Config): seq<ComponentSpec> {
    ConditionResolver.Resolved(model, ComponentsOf(cfg, e.approvalId), e.approvalId, cfg.conditions)
  }

  /** `rollback`, applied to the run `store` returned. */
  function RollbackRun(e: ApprovalEvent, model: Requestable, cfg: Config, groupTypes: set<string>,
                       dir: Directory, now: Time): ApprovalEvent {
    ResetRun(e, RollbackSpecs(e, model, cfg), cfg, groupTypes, dir, now)
  }

  /** The component updates of force: all when `all`, else those whose bits the mask covers. */
  function ForceComponents(comps: seq<EventComponent>, mask: Mask, all: bool, now: Time): (r: seq<EventComponent>)
    ensures |r| == |comps|
  {
    seq(|comps|, k requires 0 <= k < |comps| =>
      if all || Covers(mask, comps[k].step) then comps[k].(approvedAt := Some(now)) else comps[k])
  }

  /** `force`, applied to the run `store` returned; `status` is the requested status, if any. */
  function ForceRun(e: ApprovalEvent, binary: Option<Mask>, status: Option<Status>, now: Time): ApprovalEvent {
    var mask := binary.GetOr(e.target);
    var step := e.step + mask;
    var all := step == e.target;
    e.(step := step,
       status := status.GetOr(Approved),
       approvedAt := if all then Some(now) else e.approvedAt,
       components := ForceComponents(e.components, mask, all, now))
  }
}
