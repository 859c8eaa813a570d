/**
 * What the actions promise, stated over the transition functions: the guard
 * that makes a finished run final, the voting rules of approve and reject,
 * what cancel undoes, the invariant tying `step` to the approved components,
 * and the lifecycle of the workflow tests.
 */
module Workflow {
  import opened Base
  import opened Configuration
  import opened EventContributors
  import opened EventComponents
  import opened Events
  import opened EventStore
  import opened Transitions

  /** approve, reject and cancel leave a finished run as it is. */
  lemma TerminalRunIsFinal(e: ApprovalEvent, binary: Option<Mask>, user: User, now: Time)
    requires e.Terminal()
    ensures ApproveRun(e, binary, user, now) == Done(e)
    ensures RejectRun(e, binary, user, now) == Done(e)
    ensures CancelRun(e, binary, user.id, now) == e
  {
  }

  /** The components of two runs carry the same step masks. */
  predicate SameSteps(c1: seq<EventComponent>, c2: seq<EventComponent>) {
    |c1| == |c2| && forall k :: 0 <= k < |c1| ==> c1[k].step == c2[k].step
  }

  /** `e2` is `e1` with at most component `i` changed, same identity and target. */
  predicate OnlyComponentChanged(e1: ApprovalEvent, e2: ApprovalEvent, i: nat) {
    && e2.key == e1.key && e2.approvalId == e1.approvalId && e2.mode == e1.mode && e2.target == e1.target
    && SameSteps(e1.components, e2.components)
    && forall k :: 0 <= k < |e1.components| && k != i ==> e2.components[k] == e1.components[k]
  }

  // ---------------------------------------------------------------- approve

  /** With no pending component left to choose, approve completes the run. */
  lemma ApproveWithNothingPending(e: ApprovalEvent, binary: Option<Mask>, user: User, now: Time)
    requires !e.Terminal() && FirstEventComponent(e, binary, user.id).None?
    ensures var r := ApproveRun(e, binary, user, now);
            && r.Done? && r.event.status == Approved && r.event.approvedAt == Some(now)
            && Covers(r.event.step, e.step) && Covers(r.event.step, r.event.target)
            && r.event.components == e.components
  {
  }

  /**
   * approve refuses exactly the user who holds no row on a chosen component
   * that has rows, and names the action, the component and the user.
   */
  lemma ApproveRequiresRow(e: ApprovalEvent, binary: Option<Mask>, user: User, now: Time, i: nat)
    requires !e.Terminal() && FirstEventComponent(e, binary, user.id) == Some(i)
    ensures var c := e.components[i];
            var r := ApproveRun(e, binary, user, now);
            && (r.NotAContributor? <==> |c.contributors| > 0 && user.id !in UserIds(c.contributors))
            && (r.NotAContributor? ==> r == NotAContributor("Approve", c.name, GetUserName(user)))
  {
  }

  /** A component without contributor rows is approved by whoever acts on it. */
  lemma ApproveWithoutContributors(e: ApprovalEvent, binary: Option<Mask>, user: User, now: Time, i: nat)
    requires !e.Terminal() && FirstEventComponent(e, binary, user.id) == Some(i)
    requires |e.components[i].contributors| == 0
    ensures var r := ApproveRun(e, binary, user, now);
            && r.Done? && OnlyComponentChanged(e, r.event, i)
            && r.event.components[i].approvedAt == Some(now)
            && r.event.step == e.step + e.components[i].step
            && (r.event.status == Approved <==> Covers(r.event.step, e.target))
            && (r.event.IsApproved() <==> Covers(r.event.step, e.target))
  {
  }

  /**
   * A contributor's vote: the row is stamped; an OR component is decided by
   * it, an AND component only when every other row has approved already. A
   * decided component adds its bits to `step`, and the run is approved
   * exactly when `step` then covers `target`; an undecided one changes
   * neither `step` nor the status.
   */
  lemma ApproveByContributor(e: ApprovalEvent, binary: Option<Mask>, user: User, now: Time, i: nat)
    requires !e.Terminal() && FirstEventComponent(e, binary, user.id) == Some(i)
    requires user.id in UserIds(e.components[i].contributors)
    ensures ApproveRun(e, binary, user, now).Done?
    ensures var c := e.components[i];
            var j := RowOf(c.contributors, user.id).value;
            var e2 := ApproveRun(e, binary, user, now).event;
            var rows := e2.components[i].contributors;
            && OnlyComponentChanged(e, e2, i)
            && |rows| == |c.contributors| && rows[j] == c.contributors[j].Approved(now)
            && (forall k :: 0 <= k < |rows| && k != j ==> rows[k] == c.contributors[k])
            && (e2.components[i].IsApproved() <==>
                  c.logic == Or || forall k :: 0 <= k < |rows| && k != j ==> c.contributors[k].IsApproved())
            && (e2.components[i].IsApproved() ==> e2.step == e.step + c.step)
            && (!e2.components[i].IsApproved() ==> e2.step == e.step && e2.status == e.status)
            && (e2.IsApproved() <==> e2.components[i].IsApproved() && Covers(e.step + c.step, e.target))
  {
    var c := e.components[i];
    var j := RowOf(c.contributors, user.id).value;
    var rows := c.contributors[j := c.contributors[j].Approved(now)];
    var voted := e.(components := e.components[i := c.(contributors := rows)]);
    var decided := c.logic == Or || AllApproved(rows);
    assert ApproveRun(e, binary, user, now) == Done(if decided then WithComponentApproved(voted, i, now) else voted);
    VoteOutcome(e, i, rows, decided, now);
    LastVoteDecides(c.contributors, j, now);
  }

  /** The run after the acting user's row set is written and the component possibly approved. */
  lemma VoteOutcome(e: ApprovalEvent, i: nat, rows: seq<EventContributor>, decided: bool, now: Time)
    requires i < |e.components|
    ensures var c := e.components[i];
            var voted := e.(components := e.components[i := c.(contributors := rows)]);
            var e2 := if decided then WithComponentApproved(voted, i, now) else voted;
            && OnlyComponentChanged(e, e2, i)
            && e2.components[i].contributors == rows
            && (e2.components[i].IsApproved() <==> decided || c.IsApproved())
            && (decided ==> e2.step == e.step + c.step)
            && (!decided ==> e2.step == e.step && e2.status == e.status)
            && (e2.IsApproved() <==> (decided && Covers(e.step + c.step, e.target)) || e.IsApproved())
  {
  }

  /** Stamping row `j` leaves every row approved exactly when all the others were. */
  lemma LastVoteDecides(rows: seq<EventContributor>, j: nat, now: Time)
    requires j < |rows|
    ensures AllApproved(rows[j := rows[j].Approved(now)]) <==>
              forall k :: 0 <= k < |rows| && k != j ==> rows[k].IsApproved()
  {
    var voted := rows[j := rows[j].Approved(now)];
    if forall k :: 0 <= k < |rows| && k != j ==> rows[k].IsApproved() {
      forall k | 0 <= k < |voted| ensures voted[k].IsApproved() {
        if k != j {
          assert voted[k] == rows[k];
        }
      }
    } else {
      var k :| 0 <= k < |rows| && k != j && !rows[k].IsApproved();
      assert voted[k] == rows[k];
    }
  }

  /** approve never clears a bit of `step` and never touches the target. */
  lemma ApproveKeepsBits(e: ApprovalEvent, binary: Option<Mask>, user: User, now: Time)
    requires ApproveRun(e, binary, user, now).Done?
    ensures var e2 := ApproveRun(e, binary, user, now).event;
            Covers(e2.step, e.step) && e2.target == e.target && SameSteps(e.components, e2.components)
  {
    if !e.Terminal() && FirstEventComponent(e, binary, user.id).Some? {
      var i := FirstEventComponent(e, binary, user.id).value;
      var c := e.components[i];
      if |c.contributors| > 0 {
        var j := RowOf(c.contributors, user.id).value;
        var rows := c.contributors[j := c.contributors[j].Approved(now)];
        var voted := e.(components := e.components[i := c.(contributors := rows)]);
        assert SameSteps(e.components, voted.components);
        ApprovingKeepsSteps(voted, i, now);
      } else {
        ApprovingKeepsSteps(e, i, now);
      }
    }
  }

  /** Approving a component only adds bits to `step`. */
  lemma ApprovingKeepsSteps(e: ApprovalEvent, i: nat, now: Time)
    requires i < |e.components|
    ensures var e2 := WithComponentApproved(e, i, now);
            Covers(e2.step, e.step) && e2.target == e.target && SameSteps(e.components, e2.components)
  {
  }

  // ----------------------------------------------------------------- reject

  /** With no pending component left to choose, reject closes the run as REJECTED. */
  lemma RejectWithNothingPending(e: ApprovalEvent, binary: Option<Mask>, user: User, now: Time)
    requires !e.Terminal() && FirstEventComponent(e, binary, user.id).None?
    ensures var r := RejectRun(e, binary, user, now);
            && r.Done? && r.event.status == Rejected && r.event.rejectedAt == Some(now)
            && r.event.step == e.step && r.event.components == e.components
  {
  }

  /**
   * reject refuses exactly the user who holds no row on the chosen
   * component, a component without rows included.
   */
  lemma RejectRequiresRow(e: ApprovalEvent, binary: Option<Mask>, user: User, now: Time, i: nat)
    requires !e.Terminal() && FirstEventComponent(e, binary, user.id) == Some(i)
    ensures var c := e.components[i];
            var r := RejectRun(e, binary, user, now);
            && (r.NotAContributor? <==> user.id !in UserIds(c.contributors))
            && (r.NotAContributor? ==> r == NotAContributor("Reject", c.name, GetUserName(user)))
  {
  }

  /**
   * A contributor's vote to reject: the row is stamped (an approval it gave
   * stays); an OR component rejects the run at once, an AND component only
   * when its rejections then outnumber its approvals (a tie does not). `step`
   * never moves; an undecided vote leaves the status alone.
   */
  lemma RejectByContributor(e: ApprovalEvent, binary: Option<Mask>, user: User, now: Time, i: nat)
    requires !e.Terminal() && FirstEventComponent(e, binary, user.id) == Some(i)
    requires user.id in UserIds(e.components[i].contributors)
    ensures RejectRun(e, binary, user, now).Done?
    ensures var c := e.components[i];
            var j := RowOf(c.contributors, user.id).value;
            var e2 := RejectRun(e, binary, user, now).event;
            var rows := e2.components[i].contributors;
            && OnlyComponentChanged(e, e2, i)
            && |rows| == |c.contributors| && rows[j] == c.contributors[j].Rejected(now)
            && (forall k :: 0 <= k < |rows| && k != j ==> rows[k] == c.contributors[k])
            && e2.step == e.step
            && e2.components[i].approvedAt == c.approvedAt
            && (e2.IsRejected() <==> c.logic == Or || RejectionCount(rows) > ApprovalCount(rows))
            && (e2.IsRejected() ==> e2.status == Rejected && e2.components[i].IsRejected())
            && (!e2.IsRejected() ==> e2.status == e.status && e2.components[i].rejectedAt == c.rejectedAt)
  {
  }

  // ----------------------------------------------------------------- cancel

  /** With no pending component left to choose, cancel closes the run as CANCELED. */
  lemma CancelWithNothingPending(e: ApprovalEvent, binary: Option<Mask>, user: UserId, now: Time)
    requires !e.Terminal() && FirstEventComponent(e, binary, user).None?
    ensures var e2 := CancelRun(e, binary, user, now);
            && e2.status == Canceled && e2.cancelledAt == Some(now)
            && e2.step == e.step && e2.components == e.components
  {
  }

  /**
   * cancel on a chosen component: the run is closed (status REJECTED,
   * `cancelled_at` set), exactly the component's bits leave `step`, the
   * component is open again and every one of its rows keeps only
   * `cancelled_at`. No row is required of the user.
   */
  lemma CancelClearsComponent(e: ApprovalEvent, binary: Option<Mask>, user: UserId, now: Time, i: nat)
    requires !e.Terminal() && FirstEventComponent(e, binary, user) == Some(i)
    ensures var c := e.components[i];
            var e2 := CancelRun(e, binary, user, now);
            var rows := e2.components[i].contributors;
            && OnlyComponentChanged(e, e2, i)
            && e2.status == Rejected && e2.cancelledAt == Some(now) && e2.Terminal()
            && (forall b :: b in e2.step <==> b in e.step && b !in c.step)
            && e2.components[i].Pending() && e2.components[i].cancelledAt == Some(now)
            && |rows| == |c.contributors|
            && (forall k :: 0 <= k < |rows| ==>
                  rows[k].userId == c.contributors[k].userId && rows[k].IsCancelled() &&
                  !rows[k].IsApproved() && !rows[k].IsRejected() && !rows[k].IsRollback())
  {
  }

  // ------------------------------------------------------------------ force

  /**
   * force: the mask (the target when none is given) is ORed into `step`; the
   * components it covers are stamped approved, and when `step` then equals
   * `target` the run and every component are stamped. The status is the one
   * requested, APPROVED by default; nothing is checked, a finished run
   * included, and the other timestamps are left as they were.
   */
  lemma ForceFacts(e: ApprovalEvent, binary: Option<Mask>, status: Option<Status>, now: Time)
    ensures var mask := binary.GetOr(e.target);
            var e2 := ForceRun(e, binary, status, now);
            && e2.step == e.step + mask && Covers(e2.step, mask)
            && e2.status == status.GetOr(Approved)
            && e2.target == e.target && SameSteps(e.components, e2.components)
            && e2.rejectedAt == e.rejectedAt && e2.cancelledAt == e.cancelledAt && e2.rollbackAt == e.rollbackAt
            && (forall k :: 0 <= k < |e.components| && Covers(mask, e.components[k].step) ==>
                  e2.components[k].approvedAt == Some(now))
            && (e2.step == e.target ==>
                  e2.approvedAt == Some(now) && forall k :: 0 <= k < |e2.components| ==> e2.components[k].IsApproved())
            && (e2.step != e.target ==>
                  e2.approvedAt == e.approvedAt &&
                  forall k :: 0 <= k < |e.components| && !Covers(mask, e.components[k].step) ==>
                    e2.components[k] == e.components[k])
  {
  }

  // ------------------------------------------------------ the step invariant

  /** A mask holding exactly one bit, as every component's step does. */
  predicate SingleBit(m: Mask) {
    exists b :: b in m && m == {b}
  }

  /**
   * The invariant the bitmask design relies on: every component owns one
   * bit of its own inside `target`, and a component is approved exactly
   * when `step` carries its bit.
   */
  predicate WellFormed(e: ApprovalEvent) {
    && (forall k :: 0 <= k < |e.components| ==> SingleBit(e.components[k].step))
    && (forall k, l :: 0 <= k < l < |e.components| ==> e.components[k].step != e.components[l].step)
    && (forall k :: 0 <= k < |e.components| ==> Covers(e.target, e.components[k].step))
    && (forall k :: 0 <= k < |e.components| ==> (e.components[k].IsApproved() <==> Covers(e.step, e.components[k].step)))
  }

  /** Adding or removing one component's bit does not change whether another one's is carried. */
  lemma OtherBit(step: Mask, x: Mask, y: Mask)
    requires SingleBit(x) && SingleBit(y) && x != y
    ensures Covers(step + y, x) <==> Covers(step, x)
    ensures Covers(step - y, x) <==> Covers(step, x)
  {
    var a :| a in x && x == {a};
    var b :| b in y && y == {b};
    assert a != b;
  }

  /** A single bit is carried exactly when it meets the mask. */
  lemma SingleBitMeets(step: Mask, x: Mask)
    requires SingleBit(x)
    ensures x * step == {} <==> !Covers(step, x)
    ensures !Covers(step - x, x)
  {
    var a :| a in x && x == {a};
    if a in step {
      assert a in x * step;
    }
  }

  /** Replacing one component by one with the same bit and approval keeps the invariant. */
  lemma ReplaceKeepsWellFormed(e: ApprovalEvent, i: nat, c: EventComponent)
    requires WellFormed(e) && i < |e.components|
    requires c.step == e.components[i].step && c.approvedAt == e.components[i].approvedAt
    ensures WellFormed(e.(components := e.components[i := c]))
  {
  }

  /** Approving component `i` keeps the invariant. */
  lemma ApprovingKeepsWellFormed(e: ApprovalEvent, i: nat, now: Time)
    requires WellFormed(e) && i < |e.components|
    ensures WellFormed(WithComponentApproved(e, i, now))
  {
    var e2 := WithComponentApproved(e, i, now);
    var c := e.components[i];
    forall k | 0 <= k < |e.components| && k != i
      ensures e2.components[k].IsApproved() <==> Covers(e2.step, e2.components[k].step)
    {
      OtherBit(e.step, e.components[k].step, c.step);
    }
  }

  /** With no explicit mask, approve keeps the invariant. */
  lemma ApprovePreservesWellFormed(e: ApprovalEvent, user: User, now: Time)
    requires WellFormed(e) && ApproveRun(e, None, user, now).Done?
    ensures WellFormed(ApproveRun(e, None, user, now).event)
  {
    if !e.Terminal() {
      match FirstEventComponent(e, None, user.id)
      case None =>
      case Some(i) =>
        var c := e.components[i];
        if |c.contributors| == 0 {
          ApprovingKeepsWellFormed(e, i, now);
        } else {
          var j := RowOf(c.contributors, user.id).value;
          var rows := c.contributors[j := c.contributors[j].Approved(now)];
          var voted := e.(components := e.components[i := c.(contributors := rows)]);
          ReplaceKeepsWellFormed(e, i, c.(contributors := rows));
          ApprovingKeepsWellFormed(voted, i, now);
        }
    }
  }

  /** reject keeps the invariant: it never moves a bit. */
  lemma RejectPreservesWellFormed(e: ApprovalEvent, binary: Option<Mask>, user: User, now: Time)
    requires WellFormed(e) && RejectRun(e, binary, user, now).Done?
    ensures WellFormed(RejectRun(e, binary, user, now).event)
  {
    if !e.Terminal() {
      match FirstEventComponent(e, binary, user.id)
      case None =>
      case Some(i) =>
        var c := e.components[i];
        var j := RowOf(c.contributors, user.id).value;
        var rows := c.contributors[j := c.contributors[j].Rejected(now)];
        ReplaceKeepsWellFormed(e, i, c.(contributors := rows, rejectedAt := Some(now)));
        ReplaceKeepsWellFormed(e, i, c.(contributors := rows));
    }
  }

  /** cancel keeps the invariant: the component it reopens loses exactly its bit. */
  lemma CancelPreservesWellFormed(e: ApprovalEvent, binary: Option<Mask>, user: UserId, now: Time)
    requires WellFormed(e)
    ensures WellFormed(CancelRun(e, binary, user, now))
  {
    if !e.Terminal() {
      match FirstEventComponent(e, binary, user)
      case None =>
      case Some(i) =>
        var e2 := CancelRun(e, binary, user, now);
        var c := e.components[i];
        forall k | 0 <= k < |e.components|
          ensures e2.components[k].IsApproved() <==> Covers(e2.step, e2.components[k].step)
        {
          if k == i {
            SingleBitMeets(e.step, c.step);
          } else {
            OtherBit(e.step, e.components[k].step, c.step);
          }
        }
    }
  }

  /** force keeps the invariant. */
  lemma ForcePreservesWellFormed(e: ApprovalEvent, binary: Option<Mask>, status: Option<Status>, now: Time)
    requires WellFormed(e)
    ensures WellFormed(ForceRun(e, binary, status, now))
  {
    var e2 := ForceRun(e, binary, status, now);
    var mask := binary.GetOr(e.target);
    forall k | 0 <= k < |e.components|
      ensures e2.components[k].IsApproved() <==> Covers(e2.step, e2.components[k].step)
    {
      var x := e.components[k].step;
      var a :| a in x && x == {a};
      assert Covers(mask, x) <==> a in mask;
    }
  }

  /**
   * A run built from definitions with distinct steps below 64 satisfies the
   * invariant (with a flow; without one there are no definitions).
   */
  lemma NewRunWellFormed(key: RunKey, approval: Option<Approval>, specs: seq<ComponentSpec>, cfg: Config,
                         groupTypes: set<string>, dir: Directory, now: Time)
    requires forall k :: 0 <= k < |specs| ==> specs[k].step < WordBits
    requires forall k, l :: 0 <= k < l < |specs| ==> specs[k].step != specs[l].step
    ensures WellFormed(BuildRun(key, approval, true, specs, cfg, groupTypes, dir, now))
  {
    var e := BuildRun(key, approval, true, specs, cfg, groupTypes, dir, now);
    forall k | 0 <= k < |specs|
      ensures e.components[k].step == Bit(specs[k].step)
      ensures e.components[k].IsApproved() <==> |e.components[k].contributors| == 0
    {
      MaterializeAt(specs, cfg, groupTypes, dir, now, k);
    }
    forall k | 0 <= k < |specs| ensures specs[k].step in e.target {
    }
    BuiltRunWellFormed(e, specs);
  }

  /** The invariant from the shape `store` gives a run: one component per definition, approved iff it has no rows. */
  lemma BuiltRunWellFormed(e: ApprovalEvent, specs: seq<ComponentSpec>)
    requires forall k :: 0 <= k < |specs| ==> specs[k].step < WordBits
    requires forall k, l :: 0 <= k < l < |specs| ==> specs[k].step != specs[l].step
    requires |e.components| == |specs|
    requires forall k :: 0 <= k < |specs| ==> e.components[k].step == Bit(specs[k].step) && specs[k].step in e.target
    requires forall k :: 0 <= k < |specs| ==> (e.components[k].IsApproved() <==> |e.components[k].contributors| == 0)
    requires e.step == if !AnyVoter(e.components) then e.target else ApprovedBits(e.components)
    ensures WellFormed(e)
  {
    forall k | 0 <= k < |e.components| ensures SingleBit(e.components[k].step) {
      assert specs[k].step in e.components[k].step;
    }
    if AnyVoter(e.components) {
      VotedRunSteps(e, specs);
    } else {
      forall k | 0 <= k < |e.components|
        ensures e.components[k].IsApproved() && Covers(e.step, e.components[k].step)
      {
        assert |e.components[k].contributors| == 0;
      }
    }
  }

  /**
   * When `step` is the OR of the approved components' bits and the bits are
   * distinct, a component's bit is in `step` exactly when it is approved.
   */
  lemma VotedRunSteps(e: ApprovalEvent, specs: seq<ComponentSpec>)
    requires forall k :: 0 <= k < |specs| ==> specs[k].step < WordBits
    requires forall k, l :: 0 <= k < l < |specs| ==> specs[k].step != specs[l].step
    requires |e.components| == |specs|
    requires forall k :: 0 <= k < |specs| ==> e.components[k].step == Bit(specs[k].step)
    requires e.step == ApprovedBits(e.components)
    ensures forall k :: 0 <= k < |e.components| ==> (e.components[k].IsApproved() <==> Covers(e.step, e.components[k].step))
  {
    forall k | 0 <= k < |e.components|
      ensures e.components[k].IsApproved() <==> Covers(e.step, e.components[k].step)
    {
      var a := specs[k].step;
      assert a in e.components[k].step;
      if a in e.step {
        var l :| 0 <= l < |e.components| && e.components[l].IsApproved() && a in e.components[l].step;
        assert specs[l].step == a;
      }
    }
  }

  /**
   * `can_approve` is sound for approve: on a well-formed run, a user the
   * attribute admits is never refused by approve, in either mode.
   */
  lemma CanApproveMeansAccepted(e: ApprovalEvent, user: User, now: Time)
    requires WellFormed(e) && CanApprove(e, Some(user.id))
    ensures ApproveRun(e, None, user, now).Done?
  {
    forall k | 0 <= k < |e.components|
      ensures Selects(OutsideStep(e.step), e.components[k]) <==> Selects(Pending, e.components[k])
    {
      SingleBitMeets(e.step, e.components[k].step);
    }
    LowestOfSameSelection(e.components, OutsideStep(e.step), Pending);
    var i := Component(e).value;
    var c := e.components[i];
    if |c.contributors| > 0 {
      var r :| 0 <= r < |c.contributors| && c.contributors[r].userId == user.id && !c.contributors[r].IsApproved();
      assert user.id in UserIds(c.contributors);
      assert Selects(PendingWithUser(user.id), c);
    }
  }

  /**
   * approve with a mask that no pending component carries finds nothing to
   * approve and completes the run, even though components are still open.
   */
  lemma StaleMaskCompletesRun(e: ApprovalEvent, mask: Mask, user: User, now: Time)
    requires !e.Terminal()
    requires forall k :: 0 <= k < |e.components| && e.components[k].Pending() ==> !Covers(e.components[k].step, mask)
    ensures var r := ApproveRun(e, Some(mask), user, now);
            && r.Done? && r.event.status == Approved && r.event.IsApproved()
            && r.event.components == e.components
  {
  }

  // -------------------------------------------------------------- lifecycle

  /** A signed-in user of the host application with a display name. */
  function Person(id: UserId, name: string): User {
    User(id, true, Some(name), None, None, None)
  }

  /** The document of the workflow tests; it does not use dynamic masking. */
  const TestDocument: Requestable := Requestable("TestDocument", "1", None)

  /** The two configured steps of the workflow tests. */
  const ManagerStep: ComponentSpec := ComponentSpec(1, 1, "Manager Approval", 0, Or, "")
  const DirectorStep: ComponentSpec := ComponentSpec(2, 1, "Director Approval", 1, Or, "")

  /**
   * The configuration of the workflow tests: TestDocument linked to a flow
   * whose approval is SEQUENTIAL, with the Manager step and the Director
   * step, each with one direct user contributor, and no condition.
   */
  function TestConfig(manager: UserId, director: UserId): Config {
    Config([FlowLink("TestDocument", 1)],
           [Approval(1, 1, Sequential)],
           [ManagerStep, DirectorStep],
           [ContributorSpec(1, "User", manager), ContributorSpec(2, "User", director)],
           [])
  }

  /**
   * The run of the workflow tests before any vote: SEQUENTIAL, a Manager
   * step (bit 0) and a Director step (bit 1), both OR, one contributor each.
   * `TestRunStored` shows it is the run `store` creates for the test
   * configuration.
   */
  function TwoStepRun(manager: UserId, director: UserId): ApprovalEvent {
    ApprovalEvent(RunKey("TestDocument", "1"), Some(1), Sequential, Draft, {}, {0, 1},
                  None, None, None, None,
                  [EventComponent("Manager Approval", {0}, Or, "", None, None, None, None, [NewContributor(manager)]),
                   EventComponent("Director Approval", {1}, Or, "", None, None, None, None, [NewContributor(director)])])
  }

  /** A configured step's single direct contributor becomes its one fresh row. */
  lemma TestComponentRows(manager: UserId, director: UserId, groupTypes: set<string>, dir: Directory)
    requires "User" !in groupTypes
    ensures ComponentRows(ManagerStep, TestConfig(manager, director), groupTypes, dir) == [NewContributor(manager)]
    ensures ComponentRows(DirectorStep, TestConfig(manager, director), groupTypes, dir) == [NewContributor(director)]
  {
    var cfg := TestConfig(manager, director);
    var rows := cfg.contributors;
    assert rows[1..] == [rows[1]] && rows[1..][1..] == [];
    assert ContributorsOf(cfg, 1) == [rows[0]];
    assert ContributorsOf(cfg, 2) == [rows[1]];
    assert [rows[0]][..0] == [] && [rows[1]][..0] == [];
    assert AddContributors([], [rows[0]], groupTypes, dir, AlwaysNew) == [NewContributor(manager)];
    assert AddContributors([], [rows[1]], groupTypes, dir, AlwaysNew) == [NewContributor(director)];
  }

  /** `store` resolves the test configuration to both steps, in order. */
  lemma TestRunSpecs(manager: UserId, director: UserId)
    ensures RunApproval(TestDocument, TestConfig(manager, director)) == Some(Approval(1, 1, Sequential))
    ensures FlowFor(TestConfig(manager, director), TestDocument.morphClass).Some?
    ensures RunSpecs(TestDocument, TestConfig(manager, director)) == [ManagerStep, DirectorStep]
  {
    var cfg := TestConfig(manager, director);
    assert FlowFor(cfg, "TestDocument") == Some(cfg.flows[0]);
    assert ApprovalFor(cfg, 1) == Some(cfg.approvals[0]);
    assert ComponentsOf(cfg, Some(1)) == cfg.components;
  }

  /**
   * `initEvent` in the workflow tests: `store` creates exactly the two-step
   * run, DRAFT with `step = 0` and `target = 3`.
   */
  lemma TestRunStored(manager: UserId, director: UserId, groupTypes: set<string>, dir: Directory, now: Time)
    requires "User" !in groupTypes
    ensures NewEvent(TestDocument, TestConfig(manager, director), groupTypes, dir, now) == TwoStepRun(manager, director)
  {
    var cfg := TestConfig(manager, director);
    var specs := [ManagerStep, DirectorStep];
    TestRunSpecs(manager, director);
    TestComponentRows(manager, director, groupTypes, dir);
    var comps := Materialize(specs, cfg, groupTypes, dir, now);
    MaterializeAt(specs, cfg, groupTypes, dir, now, 0);
    MaterializeAt(specs, cfg, groupTypes, dir, now, 1);
    var e0 := TwoStepRun(manager, director);
    assert comps == e0.components;
    assert AnyVoter(comps) by { assert |comps[0].contributors| > 0; }
    assert ApprovedBits(comps) == {};
    assert TargetOf(specs) == {0, 1};
    assert !Covers({}, {0, 1}) by { assert 0 !in {}; }
  }

  /** Step 0 is ordered before step 1. */
  lemma FirstStepFirst(comps: seq<EventComponent>, sel: Selector, i: nat)
    requires |comps| == 2 && comps[0].step == {0} && comps[1].step == {1}
    requires Selects(sel, comps[0]) && IsLowest(comps, sel, i)
    ensures i == 0
  {
    BitOrder(0, 1);
  }

  /** The run of the workflow tests once the Manager has approved at `t1`. */
  function ManagerApproved(manager: UserId, director: UserId, t1: Time): ApprovalEvent {
    var e0 := TwoStepRun(manager, director);
    var c := e0.components[0];
    e0.(components := [c.(contributors := [c.contributors[0].Approved(t1)], approvedAt := Some(t1)),
                       e0.components[1]],
        step := {0})
  }

  /** The Manager's approval: bit 0 set, the run still DRAFT. */
  lemma ManagerApprovesFirst(manager: UserId, director: UserId, t1: Time)
    requires manager != director
    ensures ApproveRun(TwoStepRun(manager, director), None, Person(manager, "Manager"), t1)
            == Done(ManagerApproved(manager, director, t1))
  {
    var e0 := TwoStepRun(manager, director);
    var f1 := FirstEventComponent(e0, None, manager);
    assert e0.components[0].Pending();
    FirstStepFirst(e0.components, Pending, f1.value);
    assert RowOf(e0.components[0].contributors, manager) == Some(0);
    assert !Covers({0}, e0.target) by { assert 1 !in {0}; }
    var c := e0.components[0];
    var rows := c.contributors[0 := c.contributors[0].Approved(t1)];
    assert rows == [c.contributors[0].Approved(t1)];
    assert e0.step + c.step == {0};
  }

  /** The Director's approval then sets bit 1 and approves the run. */
  lemma DirectorApprovesSecond(manager: UserId, director: UserId, t1: Time, t2: Time)
    requires manager != director
    ensures var r := ApproveRun(ManagerApproved(manager, director, t1), None, Person(director, "Director"), t2);
            r.Done? && r.event.step == {0, 1} && r.event.status == Approved && r.event.approvedAt == Some(t2)
  {
    var e1 := ManagerApproved(manager, director, t1);
    var f2 := FirstEventComponent(e1, None, director);
    assert e1.components[1].Pending() && !e1.components[0].Pending();
    assert f2 == Some(1);
    assert RowOf(e1.components[1].contributors, director) == Some(0);
  }

  /**
   * The full lifecycle of the workflow tests: `store` creates the run DRAFT
   * with `step = 0` and `target = 3`; the Manager's approval sets bit 0 and
   * leaves it DRAFT; the Director's then sets bit 1 and the run is APPROVED
   * with `approved_at`.
   */
  lemma FullApprovalLifecycle(manager: UserId, director: UserId, groupTypes: set<string>, dir: Directory,
                              t0: Time, t1: Time, t2: Time)
    requires manager != director && "User" !in groupTypes
    ensures var e0 := NewEvent(TestDocument, TestConfig(manager, director), groupTypes, dir, t0);
            var r1 := ApproveRun(e0, None, Person(manager, "Manager"), t1);
            && e0.status == Draft && e0.step == {} && e0.target == {0, 1} && WellFormed(e0)
            && r1.Done? && r1.event.step == {0} && r1.event.status == Draft && !r1.event.IsApproved()
            && var r2 := ApproveRun(r1.event, None, Person(director, "Director"), t2);
               r2.Done? && r2.event.step == {0, 1} && r2.event.status == Approved && r2.event.approvedAt == Some(t2)
  {
    TestRunStored(manager, director, groupTypes, dir, t0);
    TwoStepRunWellFormed(manager, director);
    ManagerApprovesFirst(manager, director, t1);
    DirectorApprovesSecond(manager, director, t1, t2);
  }

  /** The run of the workflow tests satisfies the step invariant. */
  lemma TwoStepRunWellFormed(manager: UserId, director: UserId)
    ensures WellFormed(TwoStepRun(manager, director))
  {
    var e0 := TwoStepRun(manager, director);
    assert SingleBit(e0.components[0].step) by { assert 0 in e0.components[0].step; }
    assert SingleBit(e0.components[1].step) by { assert 1 in e0.components[1].step; }
  }

  /**
   * The rejection test: on the run `store` creates, the Manager's rejection
   * on the OR step rejects the run with `rejected_at`; `step` stays 0.
   */
  lemma ManagerRejects(manager: UserId, director: UserId, groupTypes: set<string>, dir: Directory, t0: Time, t: Time)
    requires manager != director && "User" !in groupTypes
    ensures var e0 := NewEvent(TestDocument, TestConfig(manager, director), groupTypes, dir, t0);
            var r := RejectRun(e0, None, Person(manager, "Manager"), t);
            && r.Done? && r.event.status == Rejected && r.event.rejectedAt == Some(t) && r.event.step == {}
  {
    TestRunStored(manager, director, groupTypes, dir, t0);
    var e0 := TwoStepRun(manager, director);
    var f := FirstEventComponent(e0, None, manager);
    assert e0.components[0].Pending();
    FirstStepFirst(e0.components, Pending, f.value);
    assert RowOf(e0.components[0].contributors, manager) == Some(0);
  }

  // --------------------------------------------------------------- rollback

  /**
   * Rollback's row sync leaves exactly the entitled users holding rows; a
   * row it keeps keeps its timestamps (an approval given before the
   * rollback included), and every other row is fresh.
   */
  lemma SyncRowsFacts(rows: seq<EventContributor>, specs: seq<ContributorSpec>, groupTypes: set<string>,
                      dir: Directory)
    ensures var r := SyncRows(rows, specs, groupTypes, dir);
            var entitled := EntitledUsers(specs, groupTypes, dir);
            && UserIds(r) == entitled
            && (forall x :: x in rows && x.userId in entitled ==> x in r)
            && (forall x :: x in r ==> x in rows || x == NewContributor(x.userId))
  {
    var entitled := EntitledUsers(specs, groupTypes, dir);
    var grown := AddContributors(rows, specs, groupTypes, dir, GetOrCreate);
    AddContributorsFacts(rows, specs, groupTypes, dir, GetOrCreate);
    DropOthersUsers(grown, entitled);
    ExtendsMembers(rows, grown);
  }

  /** Deleting the rows of users outside `collected` leaves exactly `collected` holding rows, if all held one. */
  lemma DropOthersUsers(rows: seq<EventContributor>, collected: set<UserId>)
    requires collected <= UserIds(rows)
    ensures UserIds(DropOthers(rows, collected)) == collected
  {
    var r := DropOthers(rows, collected);
    forall u | u in collected ensures u in UserIds(r) {
      var k :| 0 <= k < |rows| && rows[k].userId == u;
      assert rows[k] in r;
      var m :| 0 <= m < |r| && r[m] == rows[k];
    }
    forall u | u in UserIds(r) ensures u in collected {
      var m :| 0 <= m < |r| && r[m].userId == u;
      assert r[m] in r;
    }
  }

  /** A run of rows that extends `rows` holds every row of it, and otherwise only fresh rows. */
  lemma ExtendsMembers(rows: seq<EventContributor>, grown: seq<EventContributor>)
    requires Extends(rows, grown)
    ensures forall x :: x in rows ==> x in grown
    ensures forall x :: x in grown ==> x in rows || x == NewContributor(x.userId)
  {
    forall x | x in rows ensures x in grown {
      var k :| 0 <= k < |rows| && rows[k] == x;
      assert grown[..|rows|][k] == x;
    }
    forall x | x in grown ensures x in rows || x == NewContributor(x.userId) {
      var k :| 0 <= k < |grown| && grown[k] == x;
      if k < |rows| {
        assert grown[..|rows|][k] == x;
      }
    }
  }

  /** What rollback makes of the component of definition `spec`. */
  predicate Synced(c: EventComponent, spec: ComponentSpec, cfg: Config, groupTypes: set<string>,
                   dir: Directory, now: Time) {
    && c.step == Bit(spec.step) && c.name == spec.name && c.logic == spec.logic && c.color == spec.color
    && c.Pending() && !c.IsRejected() && !c.IsCancelled() && c.rollbackAt == Some(now)
    && UserIds(c.contributors) == EntitledUsers(ContributorsOf(cfg, spec.id), groupTypes, dir)
  }

  /**
   * One definition: the first component holding its bit is reset and its rows
   * re-synced, keeping the votes of the users still entitled; without such a
   * component a fresh one is appended. Nothing else changes.
   */
  lemma UpsertFacts(comps: seq<EventComponent>, spec: ComponentSpec, cfg: Config, groupTypes: set<string>,
                    dir: Directory, now: Time)
    ensures var r := Upsert(comps, spec, cfg, groupTypes, dir, now);
            var entitled := EntitledUsers(ContributorsOf(cfg, spec.id), groupTypes, dir);
            && |comps| <= |r| <= |comps| + 1
            && (forall k :: 0 <= k < |comps| && comps[k].step != Bit(spec.step) ==> r[k] == comps[k])
            && (forall k :: 0 <= k < |comps| && comps[k].step == Bit(spec.step) ==> |r| == |comps|)
            && exists j :: 0 <= j < |r| && Synced(r[j], spec, cfg, groupTypes, dir, now) &&
                 (j < |comps| ==> forall x :: x in comps[j].contributors && x.userId in entitled ==> x in r[j].contributors)
  {
    var specs := ContributorsOf(cfg, spec.id);
    var r := Upsert(comps, spec, cfg, groupTypes, dir, now);
    match ComponentWithStep(comps, Bit(spec.step))
    case Some(j) =>
      SyncRowsFacts(comps[j].contributors, specs, groupTypes, dir);
      assert Synced(r[j], spec, cfg, groupTypes, dir, now);
    case None =>
      SyncRowsFacts([], specs, groupTypes, dir);
      assert Synced(r[|comps|], spec, cfg, groupTypes, dir, now);
  }

  /** Two definitions never share a step bit. */
  predicate DistinctBits(specs: seq<ComponentSpec>) {
    forall k, l :: 0 <= k < l < |specs| ==> Bit(specs[k].step) != Bit(specs[l].step)
  }

  /** No definition claims the component's bit. */
  predicate Unclaimed(c: EventComponent, specs: seq<ComponentSpec>) {
    forall k :: 0 <= k < |specs| ==> c.step != Bit(specs[k].step)
  }

  /**
   * All definitions: each one ends up with a synced component, and every
   * component no definition claims is left exactly as it was.
   */
  lemma {:induction false} UpsertAllFacts(comps: seq<EventComponent>, specs: seq<ComponentSpec>, cfg: Config,
                                          groupTypes: set<string>, dir: Directory, now: Time)
    requires DistinctBits(specs)
    ensures UpsertedAll(comps, specs, UpsertAll(comps, specs, cfg, groupTypes, dir, now), cfg, groupTypes, dir, now)
    decreases |specs|
  {
    if |specs| > 0 {
      var n := |specs| - 1;
      var prev := UpsertAll(comps, specs[..n], cfg, groupTypes, dir, now);
      assert DistinctBits(specs[..n]) by {
        forall k, l | 0 <= k < l < n ensures Bit(specs[..n][k].step) != Bit(specs[..n][l].step) {
          assert specs[..n][k] == specs[k] && specs[..n][l] == specs[l];
        }
      }
      UpsertAllFacts(comps, specs[..n], cfg, groupTypes, dir, now);
      UpsertFacts(prev, specs[n], cfg, groupTypes, dir, now);
      UpsertedAllStep(comps, specs, prev, Upsert(prev, specs[n], cfg, groupTypes, dir, now), cfg, groupTypes, dir, now);
    } else {
      assert UpsertedAll(comps, specs, comps, cfg, groupTypes, dir, now);
    }
  }

  /** `r` is what handling all of `specs` can make of `comps`. */
  predicate UpsertedAll(comps: seq<EventComponent>, specs: seq<ComponentSpec>, r: seq<EventComponent>,
                        cfg: Config, groupTypes: set<string>, dir: Directory, now: Time) {
    && |comps| <= |r|
    && (forall k :: 0 <= k < |specs| ==> exists j :: 0 <= j < |r| && Synced(r[j], specs[k], cfg, groupTypes, dir, now))
    && (forall j :: 0 <= j < |comps| && Unclaimed(comps[j], specs) ==> r[j] == comps[j])
  }

  /** Handling the last definition after the others keeps what they established. */
  lemma UpsertedAllStep(comps: seq<EventComponent>, specs: seq<ComponentSpec>, prev: seq<EventComponent>,
                        r: seq<EventComponent>, cfg: Config, groupTypes: set<string>, dir: Directory, now: Time)
    requires |specs| > 0 && DistinctBits(specs)
    requires UpsertedAll(comps, specs[..|specs| - 1], prev, cfg, groupTypes, dir, now)
    requires |prev| <= |r|
    requires forall k :: 0 <= k < |prev| && prev[k].step != Bit(specs[|specs| - 1].step) ==> r[k] == prev[k]
    requires exists j :: 0 <= j < |r| && Synced(r[j], specs[|specs| - 1], cfg, groupTypes, dir, now)
    ensures UpsertedAll(comps, specs, r, cfg, groupTypes, dir, now)
  {
    var n := |specs| - 1;
    forall k | 0 <= k < |specs|
      ensures exists j :: 0 <= j < |r| && Synced(r[j], specs[k], cfg, groupTypes, dir, now)
    {
      if k < n {
        assert specs[..n][k] == specs[k];
        var j :| 0 <= j < |prev| && Synced(prev[j], specs[..n][k], cfg, groupTypes, dir, now);
        assert r[j] == prev[j];
      }
    }
    forall j | 0 <= j < |comps| && Unclaimed(comps[j], specs) ensures r[j] == comps[j] {
      assert Unclaimed(comps[j], specs[..n]) by {
        forall k | 0 <= k < n ensures comps[j].step != Bit(specs[..n][k].step) {
          assert specs[..n][k] == specs[k];
        }
      }
      assert comps[j].step != Bit(specs[n].step);
    }
  }

  /**
   * rollback re-opens the run: DRAFT, `step = 0`, the finishing timestamps
   * cleared, `rollback_at` stamped and `target` recomputed from the
   * re-resolved definitions; each definition has a re-synced component and
   * every component no definition claims is left as it was.
   */
  lemma RollbackReopensRun(e: ApprovalEvent, specs: seq<ComponentSpec>, cfg: Config, groupTypes: set<string>,
                           dir: Directory, now: Time)
    requires DistinctBits(specs)
    ensures var e2 := ResetRun(e, specs, cfg, groupTypes, dir, now);
            && e2.key == e.key && e2.approvalId == e.approvalId && e2.mode == e.mode
            && e2.status == Draft && !e2.Terminal() && e2.step == {} && e2.rollbackAt == Some(now)
            && (forall b :: b in e2.target <==> b < WordBits && exists k :: 0 <= k < |specs| && specs[k].step == b)
            && |e.components| <= |e2.components|
            && (forall k :: 0 <= k < |specs| ==>
                  exists j :: 0 <= j < |e2.components| && Synced(e2.components[j], specs[k], cfg, groupTypes, dir, now))
            && (forall j :: 0 <= j < |e.components| && Unclaimed(e.components[j], specs) ==>
                  e2.components[j] == e.components[j])
  {
    UpsertAllFacts(e.components, specs, cfg, groupTypes, dir, now);
    var r := UpsertAll(e.components, specs, cfg, groupTypes, dir, now);
    assert UpsertedAll(e.components, specs, r, cfg, groupTypes, dir, now);
  }

  // ----------------------------------------------- rollback and the invariant

  /**
   * The components part-way through rollback's component loop, after the
   * definitions before `n`: every component holds the bit of some
   * definition, no two share a bit, and a component still approved holds
   * the bit of a definition not handled yet.
   */
  predicate ResetUpTo(comps: seq<EventComponent>, specs: seq<ComponentSpec>, n: nat) {
    && (forall j :: 0 <= j < |comps| ==> exists k :: 0 <= k < |specs| && comps[j].step == Bit(specs[k].step))
    && (forall j, l :: 0 <= j < l < |comps| ==> comps[j].step != comps[l].step)
    && (forall j :: 0 <= j < |comps| ==>
          comps[j].Pending() || exists k :: n <= k < |specs| && comps[j].step == Bit(specs[k].step))
  }

  /** What one definition does to the components: reopen the one holding its bit, or append a pending one. */
  lemma UpsertShape(comps: seq<EventComponent>, spec: ComponentSpec, cfg: Config, groupTypes: set<string>,
                    dir: Directory, now: Time)
    ensures var r := Upsert(comps, spec, cfg, groupTypes, dir, now);
            match ComponentWithStep(comps, Bit(spec.step))
            case Some(j) =>
              && |r| == |comps| && r[j].step == comps[j].step && r[j].Pending()
              && forall k :: 0 <= k < |comps| && k != j ==> r[k] == comps[k]
            case None =>
              && |r| == |comps| + 1 && r[..|comps|] == comps
              && r[|comps|].step == Bit(spec.step) && r[|comps|].Pending()
  {
  }

  /** Handling definition `n` keeps the loop's shape and settles that definition's bit. */
  lemma ResetStep(comps: seq<EventComponent>, specs: seq<ComponentSpec>, n: nat, cfg: Config,
                  groupTypes: set<string>, dir: Directory, now: Time)
    requires n < |specs| && DistinctBits(specs)
    requires ResetUpTo(comps, specs, n)
    ensures ResetUpTo(Upsert(comps, specs[n], cfg, groupTypes, dir, now), specs, n + 1)
  {
    var r := Upsert(comps, specs[n], cfg, groupTypes, dir, now);
    var mask := Bit(specs[n].step);
    UpsertShape(comps, specs[n], cfg, groupTypes, dir, now);
    match ComponentWithStep(comps, mask)
    case Some(j) =>
      forall l | 0 <= l < |r| ensures exists k :: 0 <= k < |specs| && r[l].step == Bit(specs[k].step) {
        assert r[l].step == comps[l].step;
      }
      forall l | 0 <= l < |r|
        ensures r[l].Pending() || exists k :: n + 1 <= k < |specs| && r[l].step == Bit(specs[k].step)
      {
        if l != j && !comps[l].Pending() {
          var k :| n <= k < |specs| && comps[l].step == Bit(specs[k].step);
          assert comps[l].step != comps[j].step by {
            if l < j { assert comps[l].step != comps[j].step; } else { assert comps[j].step != comps[l].step; }
          }
          assert k != n;
          assert r[l] == comps[l];
        }
      }
    case None =>
      assert forall l :: 0 <= l < |comps| ==> r[l] == comps[l] by {
        forall l | 0 <= l < |comps| ensures r[l] == comps[l] {
          assert r[..|comps|][l] == comps[l];
        }
      }
      forall l | 0 <= l < |r| ensures exists k :: 0 <= k < |specs| && r[l].step == Bit(specs[k].step) {
        if l == |comps| {
          assert r[l].step == Bit(specs[n].step);
        } else {
          assert r[l].step == comps[l].step;
        }
      }
      forall l | 0 <= l < |r|
        ensures r[l].Pending() || exists k :: n + 1 <= k < |specs| && r[l].step == Bit(specs[k].step)
      {
        if l < |comps| && !comps[l].Pending() {
          var k :| n <= k < |specs| && comps[l].step == Bit(specs[k].step);
          assert k != n;
          assert r[l] == comps[l];
        }
      }
  }

  /** After the definitions before `n`, the loop's shape holds. */
  lemma {:induction false} UpsertAllResets(comps: seq<EventComponent>, specs: seq<ComponentSpec>, n: nat,
                                           cfg: Config, groupTypes: set<string>, dir: Directory, now: Time)
    requires n <= |specs| && DistinctBits(specs)
    requires ResetUpTo(comps, specs, 0)
    ensures ResetUpTo(UpsertAll(comps, specs[..n], cfg, groupTypes, dir, now), specs, n)
    decreases n
  {
    if n > 0 {
      UpsertAllResets(comps, specs, n - 1, cfg, groupTypes, dir, now);
      assert specs[..n][..n - 1] == specs[..n - 1];
      ResetStep(UpsertAll(comps, specs[..n - 1], cfg, groupTypes, dir, now), specs, n - 1, cfg, groupTypes, dir, now);
    } else {
      assert specs[..0] == [];
    }
  }

  /** Once every definition is handled, every component is pending and holds a bit of `target`. */
  lemma ResetComponents(comps: seq<EventComponent>, specs: seq<ComponentSpec>, target: Mask)
    requires forall k :: 0 <= k < |specs| ==> specs[k].step < WordBits
    requires forall b :: b in target <==> b < WordBits && exists k :: 0 <= k < |specs| && specs[k].step == b
    requires ResetUpTo(comps, specs, |specs|)
    ensures forall j :: 0 <= j < |comps| ==>
              SingleBit(comps[j].step) && Covers(target, comps[j].step) && comps[j].Pending()
  {
    forall j | 0 <= j < |comps|
      ensures SingleBit(comps[j].step) && Covers(target, comps[j].step) && comps[j].Pending()
    {
      var k :| 0 <= k < |specs| && comps[j].step == Bit(specs[k].step);
      var s := specs[k].step;
      assert comps[j].step == {s};
      assert s in target;
    }
  }

  /**
   * rollback keeps the step invariant when every component of the run holds
   * the bit of one of the re-resolved definitions, and those have distinct
   * steps below 64: every component is then reopened and `step` is 0.
   */
  lemma RollbackPreservesWellFormed(e: ApprovalEvent, specs: seq<ComponentSpec>, cfg: Config,
                                    groupTypes: set<string>, dir: Directory, now: Time)
    requires WellFormed(e)
    requires forall k :: 0 <= k < |specs| ==> specs[k].step < WordBits
    requires DistinctBits(specs)
    requires forall j :: 0 <= j < |e.components| ==>
               exists k :: 0 <= k < |specs| && e.components[j].step == Bit(specs[k].step)
    ensures WellFormed(ResetRun(e, specs, cfg, groupTypes, dir, now))
  {
    var e2 := ResetRun(e, specs, cfg, groupTypes, dir, now);
    assert ResetUpTo(e.components, specs, 0) by {
      forall j | 0 <= j < |e.components|
        ensures exists k :: 0 <= k < |specs| && e.components[j].step == Bit(specs[k].step)
      {
        var k :| 0 <= k < |specs| && e.components[j].step == Bit(specs[k].step);
        assert 0 <= k < |specs| && e.components[j].step == Bit(specs[k].step);
      }
    }
    UpsertAllResets(e.components, specs, |specs|, cfg, groupTypes, dir, now);
    assert specs[..|specs|] == specs;
    ResetComponents(e2.components, specs, e2.target);
    forall j | 0 <= j < |e2.components| ensures !Covers(e2.step, e2.components[j].step) {
      var b :| b in e2.components[j].step && e2.components[j].step == {b};
    }
  }

  /**
   * rollback does not keep the step invariant in general: a component that
   * no re-resolved definition claims is left as it was, so an approved one
   * stays approved while `step` is cleared and `target` no longer holds its
   * bit.
   */
  lemma RollbackCanBreakWellFormed(cfg: Config, groupTypes: set<string>, dir: Directory, now: Time)
    ensures var c := EventComponent("Step", {0}, Or, "", Some(now), None, None, None, []);
            var e := ApprovalEvent(RunKey("Document", "1"), Some(1), Parallel, Approved, {0}, {0},
                                   Some(now), None, None, None, [c]);
            var e2 := ResetRun(e, [], cfg, groupTypes, dir, now);
            && WellFormed(e)
            && e2.components == [c] && e2.step == {} && e2.target == {}
            && !WellFormed(e2)
  {
    var c := EventComponent("Step", {0}, Or, "", Some(now), None, None, None, []);
    var e := ApprovalEvent(RunKey("Document", "1"), Some(1), Parallel, Approved, {0}, {0},
                           Some(now), None, None, None, [c]);
    assert SingleBit(c.step) by { assert 0 in c.step; }
    assert !Covers({}, c.step) by { assert 0 in c.step; }
    assert WellFormed(e) by {
      assert Covers(e.target, c.step) && Covers(e.step, c.step);
    }
    var e2 := ResetRun(e, [], cfg, groupTypes, dir, now);
    assert UpsertAll([c], [], cfg, groupTypes, dir, now) == [c];
    assert e2.components == [c] && e2.step == {};
    assert TargetOf([]) == {};
    assert e2.components[0].IsApproved() && !Covers(e2.step, e2.components[0].step);
  }
}
