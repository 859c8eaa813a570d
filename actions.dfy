/**
 * `EventActionService`: the five workflow actions. Each runs in one
 * transaction: it first calls `store`, then reads and updates the run and
 * its components step by step. A validation error aborts the transaction,
 * so the run table is left as it was before the call (a run `store` had
 * just created included).
 */
module EventActions {
  import opened Base
  import opened Configuration
  import opened EventContributors
  import opened EventComponents
  import opened Events
  import opened ConditionResolver
  import opened EventStore
  import opened Transitions

  /**
   * `EventActionService`; `now` is the time captured when the service is
   * built.
   */
  class EventActionService {
    const storeService: EventStoreService
    const now: Time

    constructor(storeService: EventStoreService, now: Time)
      ensures this.storeService == storeService && this.now == now
    {
      this.storeService := storeService;
      this.now := now;
    }

    /** The run as `store` leaves it for `model`, given the table before the call. */
    function Stored(events: map<RunKey, ApprovalEvent>, model: Requestable): ApprovalEvent
      reads storeService, storeService.db
    {
      StoredEvent(events, model, storeService.db.config, storeService.groupTypes, storeService.db.directory,
                  storeService.now)
    }

    /** Writes the run of `model` back to the table (`$approvalEvent->save()`). */
    method Save(model: Requestable, e: ApprovalEvent)
      modifies storeService.db
      ensures storeService.db.events == old(storeService.db.events)[KeyOf(model) := e]
    {
      storeService.db.events := storeService.db.events[KeyOf(model) := e];
    }

    /**
     * The tail of approve once the component is to be approved: the
     * component is stamped, its bits ORed into `step`, and the run becomes
     * APPROVED or stays DRAFT.
     */
    method ApproveComponent(e: ApprovalEvent, i: nat) returns (e2: ApprovalEvent)
      requires i < |e.components|
      ensures e2 == WithComponentApproved(e, i, now)
      ensures e2.components[i].approvedAt == Some(now) && Covers(e2.step, e.components[i].step)
      ensures e2.status == Approved <==> Covers(e2.step, e2.target)
    {
      var c := e.components[i].(approvedAt := Some(now));
      e2 := e.(components := e.components[i := c]);
      e2 := e2.(step := e2.step + c.step);
      if Covers(e2.step, e2.target) {
        e2 := e2.(status := Approved, approvedAt := Some(now));
      } else {
        e2 := e2.(status := Draft);
      }
    }

    /** `approve`: `store`, then the decision on the stored run; an error rolls the transaction back. */
    method Approve(model: Requestable, user: User, binary: Option<Mask>) returns (r: Outcome)
      modifies storeService.db
      ensures r == ApproveRun(Stored(old(storeService.db.events), model), binary, user, now)
      ensures r.Done? ==> storeService.db.events == old(storeService.db.events)[KeyOf(model) := r.event]
      ensures r.NotAContributor? ==> storeService.db.events == old(storeService.db.events)
    {
      var before := storeService.db.events;
      var e := storeService.Store(model);
      r := ApproveStored(model, e, user, binary);
      if r.NotAContributor? {
        storeService.db.events := before;
      }
    }

    /** The body of approve after `store` returned the run `e`. */
    method ApproveStored(model: Requestable, e: ApprovalEvent, user: User, binary: Option<Mask>) returns (r: Outcome)
      modifies storeService.db
      requires KeyOf(model) in storeService.db.events && storeService.db.events[KeyOf(model)] == e
      ensures r == ApproveRun(e, binary, user, now)
      ensures r.Done? ==> storeService.db.events == old(storeService.db.events)[KeyOf(model) := r.event]
      ensures r.NotAContributor? ==> storeService.db.events == old(storeService.db.events)
    {
      if e.IsApproved() || e.IsRejected() || e.IsCancelled() {
        assert storeService.db.events[KeyOf(model) := e] == storeService.db.events;
        return Done(e);
      }
      var first := FirstEventComponent(e, binary, user.id);
      if first.None? {
        var e2 := e.(status := Approved, step := e.step + e.target, approvedAt := Some(now));
        Save(model, e2);
        return Done(e2);
      }
      var i := first.value;
      var c := e.components[i];
      var e2 := e;
      var shouldApproveComponent := true;
      if |c.contributors| > 0 {
        var row := RowOf(c.contributors, user.id);
        if row.None? {
          return NotAContributor("Approve", c.name, GetUserName(user));
        }
        var j := row.value;
        c := c.(contributors := c.contributors[j := c.contributors[j].Approved(now)]);
        e2 := e.(components := e.components[i := c]);
        Save(model, e2);
        if c.logic == Or {
          shouldApproveComponent := true;
        } else {
          shouldApproveComponent := AllApproved(c.contributors);
        }
      }
      if shouldApproveComponent {
        e2 := ApproveComponent(e2, i);
        Save(model, e2);
      }
      return Done(e2);
    }

    /** `reject`: `store`, then the decision on the stored run; an error rolls the transaction back. */
    method Reject(model: Requestable, user: User, binary: Option<Mask>) returns (r: Outcome)
      modifies storeService.db
      ensures r == RejectRun(Stored(old(storeService.db.events), model), binary, user, now)
      ensures r.Done? ==> storeService.db.events == old(storeService.db.events)[KeyOf(model) := r.event]
      ensures r.NotAContributor? ==> storeService.db.events == old(storeService.db.events)
    {
      var before := storeService.db.events;
      var e := storeService.Store(model);
      r := RejectStored(model, e, user, binary);
      if r.NotAContributor? {
        storeService.db.events := before;
      }
    }

    /** The body of reject after `store` returned the run `e`. */
    method RejectStored(model: Requestable, e: ApprovalEvent, user: User, binary: Option<Mask>) returns (r: Outcome)
      modifies storeService.db
      requires KeyOf(model) in storeService.db.events && storeService.db.events[KeyOf(model)] == e
      ensures r == RejectRun(e, binary, user, now)
      ensures r.Done? ==> storeService.db.events == old(storeService.db.events)[KeyOf(model) := r.event]
      ensures r.NotAContributor? ==> storeService.db.events == old(storeService.db.events)
    {
      if e.IsApproved() || e.IsRejected() || e.IsCancelled() {
        assert storeService.db.events[KeyOf(model) := e] == storeService.db.events;
        return Done(e);
      }
      var first := FirstEventComponent(e, binary, user.id);
      if first.None? {
        var e2 := e.(status := Rejected, rejectedAt := Some(now));
        Save(model, e2);
        return Done(e2);
      }
      var i := first.value;
      var c := e.components[i];
      var row := RowOf(c.contributors, user.id);
      if row.None? {
        return NotAContributor("Reject", c.name, GetUserName(user));
      }
      var j := row.value;
      c := c.(contributors := c.contributors[j := c.contributors[j].Rejected(now)]);
      var e2 := e.(components := e.components[i := c]);
      Save(model, e2);
      var shouldRejectComponent := false;
      if c.logic == Or {
        shouldRejectComponent := true;
      } else {
        var approvalCount := ApprovalCount(c.contributors);
        var rejectionCount := RejectionCount(c.contributors);
        if rejectionCount > approvalCount {
          shouldRejectComponent := true;
        }
      }
      if shouldRejectComponent {
        c := c.(rejectedAt := Some(now));
        e2 := e.(components := e.components[i := c], status := Rejected, rejectedAt := Some(now));
        Save(model, e2);
      }
      return Done(e2);
    }

    /** `cancel`: `store`, then the cancellation of the stored run. */
    method Cancel(model: Requestable, user: UserId, binary: Option<Mask>) returns (e: ApprovalEvent)
      modifies storeService.db
      ensures e == CancelRun(Stored(old(storeService.db.events), model), binary, user, now)
      ensures storeService.db.events == old(storeService.db.events)[KeyOf(model) := e]
    {
      var stored := storeService.Store(model);
      e := CancelStored(model, stored, user, binary);
    }

    /** The body of cancel after `store` returned the run `e`. */
    method CancelStored(model: Requestable, e: ApprovalEvent, user: UserId, binary: Option<Mask>)
      returns (e2: ApprovalEvent)
      modifies storeService.db
      requires KeyOf(model) in storeService.db.events && storeService.db.events[KeyOf(model)] == e
      ensures e2 == CancelRun(e, binary, user, now)
      ensures storeService.db.events == old(storeService.db.events)[KeyOf(model) := e2]
    {
      e2 := e;
      if e.IsApproved() || e.IsRejected() || e.IsCancelled() {
        assert storeService.db.events[KeyOf(model) := e] == storeService.db.events;
        return;
      }
      var first := FirstEventComponent(e, binary, user);
      if first.None? {
        e2 := e.(status := Canceled, cancelledAt := Some(now));
        Save(model, e2);
        return;
      }
      var i := first.value;
      var c := e.components[i];
      c := c.(contributors := CancelRows(c.contributors, now));
      c := c.(cancelledAt := Some(now), approvedAt := None);
      e2 := e.(components := e.components[i := c]);
      e2 := e2.(status := Rejected, step := e2.step - c.step, cancelledAt := Some(now));
      Save(model, e2);
    }

    /**
     * `setEventContributor` for every approver id of a group that resolves
     * to a user; `added` is what the ids push onto `$collectorUser`.
     */
    method ExpandGroupRows(rows: seq<EventContributor>, ids: seq<UserId>)
      returns (expanded: seq<EventContributor>, added: set<UserId>)
      ensures expanded == ExpandGroup(rows, ids, storeService.db.directory.users)
      ensures added == set u | u in ids && u in storeService.db.directory.users
    {
      var users := storeService.db.directory.users;
      expanded, added := rows, {};
      var k := 0;
      while k < |ids|
        invariant 0 <= k <= |ids|
        invariant expanded == ExpandGroup(rows, ids[..k], users)
        invariant added == set u | u in ids[..k] && u in users
      {
        assert ids[..k + 1][..k] == ids[..k];
        assert ids[..k + 1] == ids[..k] + [ids[k]];
        if ids[k] in users {
          var row;
          expanded, row := storeService.SetEventContributor(expanded, ids[k]);
          added := added + {ids[k]};
        }
        k := k + 1;
      }
      assert ids[..k] == ids;
    }

    /**
     * One contributor row of the configuration during rollback: a group's
     * resolvable members, or the direct user got or created; `added` is what
     * the row pushes onto `$collectorUser`.
     */
    method SyncContributor(rows: seq<EventContributor>, spec: ContributorSpec)
      returns (next: seq<EventContributor>, added: set<UserId>)
      ensures next == AddContributor(rows, spec, storeService.groupTypes, storeService.db.directory, GetOrCreate)
      ensures added == UsersOf(spec, storeService.groupTypes, storeService.db.directory)
    {
      if spec.approvableType in storeService.groupTypes {
        var ids := GroupMembers(spec, storeService.db.directory);
        next, added := ExpandGroupRows(rows, ids);
      } else {
        var existing := RowOf(rows, spec.approvableId);
        next := rows;
        if existing.None? {
          next := rows + [NewContributor(spec.approvableId)];
        }
        added := {spec.approvableId};
      }
    }

    /**
     * The contributor loop of rollback for one component, then the delete
     * of the rows of users outside `$collectorUser`.
     */
    method SyncContributors(rows: seq<EventContributor>, specs: seq<ContributorSpec>)
      returns (synced: seq<EventContributor>)
      ensures synced == SyncRows(rows, specs, storeService.groupTypes, storeService.db.directory)
    {
      var groupTypes, dir := storeService.groupTypes, storeService.db.directory;
      var current := rows;
      var collector: set<UserId> := {};
      var j := 0;
      while j < |specs|
        invariant 0 <= j <= |specs|
        invariant current == AddContributors(rows, specs[..j], groupTypes, dir, GetOrCreate)
        invariant collector == EntitledUsers(specs[..j], groupTypes, dir)
      {
        AddContributorsAppend(rows, specs, j, groupTypes, dir, GetOrCreate);
        EntitledUsersAppend(specs, j, groupTypes, dir);
        var added;
        current, added := SyncContributor(current, specs[j]);
        collector := collector + added;
        j := j + 1;
      }
      assert specs[..j] == specs;
      synced := DropOthers(current, collector);
    }

    /**
     * One iteration of the component loop of rollback: `updateOrCreate` of
     * the component keyed by the definition's bit, then its rows re-synced.
     */
    method UpsertComponent(comps: seq<EventComponent>, spec: ComponentSpec) returns (r: seq<EventComponent>)
      ensures r == Upsert(comps, spec, storeService.db.config, storeService.groupTypes, storeService.db.directory, now)
    {
      var specs := ContributorsOf(storeService.db.config, spec.id);
      var found := ComponentWithStep(comps, Bit(spec.step));
      var c: EventComponent;
      var j: nat;
      if found.Some? {
        j := found.value;
        c := comps[j].(name := spec.name, logic := spec.logic, color := spec.color,
                       approvedAt := None, cancelledAt := None, rejectedAt := None, rollbackAt := Some(now));
      } else {
        j := |comps|;
        c := EventComponent(spec.name, Bit(spec.step), spec.logic, spec.color, None, None, None, Some(now), []);
      }
      var synced := SyncContributors(c.contributors, specs);
      c := c.(contributors := synced);
      if found.Some? {
        r := comps[j := c];
      } else {
        r := comps + [c];
      }
    }

    /**
     * The component loop of rollback: every resolved definition upserted in
     * order, its bit ORed into `binary`.
     */
    method UpsertComponents(comps0: seq<EventComponent>, specs: seq<ComponentSpec>)
      returns (comps: seq<EventComponent>, binary: Mask)
      ensures comps == UpsertAll(comps0, specs, storeService.db.config, storeService.groupTypes,
                                 storeService.db.directory, now)
      ensures binary == TargetOf(specs)
    {
      var cfg, groupTypes, dir := storeService.db.config, storeService.groupTypes, storeService.db.directory;
      binary := {};
      comps := comps0;
      var i := 0;
      while i < |specs|
        invariant 0 <= i <= |specs|
        invariant comps == UpsertAll(comps0, specs[..i], cfg, groupTypes, dir, now)
        invariant binary == TargetOf(specs[..i])
      {
        var spec := specs[i];
        UpsertPrefix(comps0, specs, i, cfg, groupTypes, dir, now);
        binary := binary + Bit(spec.step);
        comps := UpsertComponent(comps, spec);
        i := i + 1;
      }
      assert specs[..i] == specs;
    }

    /** `rollback`: `store`, then the rebuild of the stored run. */
    method Rollback(model: Requestable) returns (e: ApprovalEvent)
      modifies storeService.db
      ensures e == RollbackRun(Stored(old(storeService.db.events), model), model, storeService.db.config,
                               storeService.groupTypes, storeService.db.directory, now)
      ensures storeService.db.events == old(storeService.db.events)[KeyOf(model) := e]
    {
      var stored := storeService.Store(model);
      e := RollbackStored(model, stored);
    }

    /** The body of rollback after `store` returned the run `e`. */
    method RollbackStored(model: Requestable, e: ApprovalEvent) returns (e2: ApprovalEvent)
      modifies storeService.db
      ensures e2 == RollbackRun(e, model, storeService.db.config, storeService.groupTypes, storeService.db.directory, now)
      ensures storeService.db.events == old(storeService.db.events)[KeyOf(model) := e2]
    {
      var cfg := storeService.db.config;
      var specs := Resolve(model, ComponentsOf(cfg, e.approvalId), e.approvalId, cfg.conditions);
      var comps, binary := UpsertComponents(e.components, specs);
      e2 := e.(components := comps, status := Draft, step := {}, approvedAt := None, cancelledAt := None,
               rejectedAt := None, rollbackAt := Some(now), target := binary);
      Save(model, e2);
    }

    /** `force`: `store`, then the forced update of the stored run; `status` is the requested status, if any. */
    method Force(model: Requestable, binary: Option<Mask>, status: Option<Status>) returns (e: ApprovalEvent)
      modifies storeService.db
      ensures e == ForceRun(Stored(old(storeService.db.events), model), binary, status, now)
      ensures storeService.db.events == old(storeService.db.events)[KeyOf(model) := e]
    {
      var stored := storeService.Store(model);
      e := ForceStored(model, stored, binary, status);
    }

    /** The body of force after `store` returned the run `e`. */
    method ForceStored(model: Requestable, e: ApprovalEvent, binary: Option<Mask>, status: Option<Status>)
      returns (e2: ApprovalEvent)
      modifies storeService.db
      ensures e2 == ForceRun(e, binary, status, now)
      ensures storeService.db.events == old(storeService.db.events)[KeyOf(model) := e2]
    {
      var binaryValue := binary.GetOr(e.target);
      e2 := e.(step := e.step + binaryValue, status := status.GetOr(Approved));
      var all := e2.step == e2.target;
      if all {
        e2 := e2.(approvedAt := Some(now));
      }
      e2 := e2.(components := ForceComponents(e2.components, binaryValue, all, now));
      Save(model, e2);
    }
  }

  /** One more contributor row handled by the contributor loop. */
  lemma AddContributorsAppend(rows: seq<EventContributor>, specs: seq<ContributorSpec>, j: nat,
                              groupTypes: set<string>, dir: Directory, direct: DirectRows)
    requires j < |specs|
    ensures AddContributors(rows, specs[..j + 1], groupTypes, dir, direct)
            == AddContributor(AddContributors(rows, specs[..j], groupTypes, dir, direct), specs[j], groupTypes, dir, direct)
  {
    assert specs[..j + 1][..j] == specs[..j];
  }

  /** One more definition handled by the component loop of rollback. */
  lemma UpsertPrefix(comps: seq<EventComponent>, specs: seq<ComponentSpec>, i: nat, cfg: Config,
                     groupTypes: set<string>, dir: Directory, now: Time)
    requires i < |specs|
    ensures UpsertAll(comps, specs[..i + 1], cfg, groupTypes, dir, now)
            == Upsert(UpsertAll(comps, specs[..i], cfg, groupTypes, dir, now), specs[i], cfg, groupTypes, dir, now)
    ensures TargetOf(specs[..i + 1]) == TargetOf(specs[..i]) + Bit(specs[i].step)
  {
    assert specs[..i + 1][..i] == specs[..i];
    assert specs[..i + 1] == specs[..i] + [specs[i]];
    AppendSpec(specs[..i], specs[i], cfg, groupTypes, dir, now);
  }
}
