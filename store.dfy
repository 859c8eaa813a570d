/**
 * `EventStoreService`: idempotent materialisation of a run. The first call
 * for an entity resolves its flow and approval, filters the configured
 * components through dynamic masking, copies each as a single-bit component,
 * expands its contributors (direct user ids, or the resolvable members of a
 * group-like entity), auto-approves the components left without contributors
 * and sets the run's `target`, `step` and status. Later calls return the
 * stored run untouched.
 */
module EventStore {
  import opened Base
  import opened Conditions
  import opened Configuration
  import opened EventContributors
  import opened EventComponents
  import opened Events
  import opened ConditionResolver

  /** The run key of an entity: `(getMorphClass(), getKey())`. */
  function KeyOf(model: Requestable): RunKey {
    RunKey(model.morphClass, model.key)
  }

  /**
   * How a direct (non-group) contributor row becomes a run contributor:
   * run materialisation always inserts a row, rollback gets or creates one.
   */
  datatype DirectRows = AlwaysNew | GetOrCreate

  /** What `getApproverIds` returns for the group a row names; nothing when it does not resolve. */
  function GroupMembers(spec: ContributorSpec, dir: Directory): seq<UserId> {
    var g := GroupRef(spec.approvableType, spec.approvableId);
    if g in dir.groups then dir.groups[g] else []
  }

  /** The users one contributor row entitles to vote. */
  function UsersOf(spec: ContributorSpec, groupTypes: set<string>, dir: Directory): set<UserId> {
    if spec.approvableType in groupTypes then
      set u | u in GroupMembers(spec, dir) && u in dir.users
    else {spec.approvableId}
  }

  /** The users all contributor rows of a component entitle (`$collectorUser`). */
  function EntitledUsers(specs: seq<ContributorSpec>, groupTypes: set<string>, dir: Directory): (us: set<UserId>)
    ensures forall u :: u in us <==> exists k :: 0 <= k < |specs| && u in UsersOf(specs[k], groupTypes, dir)
    decreases |specs|
  {
    if |specs| == 0 then {}
    else
      var n := |specs| - 1;
      assert forall k :: 0 <= k < n ==> specs[..n][k] == specs[k];
      EntitledUsers(specs[..n], groupTypes, dir) + UsersOf(specs[n], groupTypes, dir)
  }

  /** `setEventContributor` for each approver id that resolves to a user, in order. */
  function ExpandGroup(rows: seq<EventContributor>, ids: seq<UserId>, users: set<UserId>): seq<EventContributor>
    decreases |ids|
  {
    if |ids| == 0 then rows
    else
      var prev := ExpandGroup(rows, ids[..|ids| - 1], users);
      var u := ids[|ids| - 1];
      if u in users then WithContributor(prev, u) else prev
  }

  /** The rows after handling one contributor row of the configuration. */
  function AddContributor(rows: seq<EventContributor>, spec: ContributorSpec, groupTypes: set<string>,
                          dir: Directory, direct: DirectRows): seq<EventContributor>
  {
    if spec.approvableType in groupTypes then ExpandGroup(rows, GroupMembers(spec, dir), dir.users)
    else if direct == GetOrCreate then WithContributor(rows, spec.approvableId)
    else rows + [NewContributor(spec.approvableId)]
  }

  /** The rows after handling the contributor rows of a component in order. */
  function AddContributors(rows: seq<EventContributor>, specs: seq<ContributorSpec>, groupTypes: set<string>,
                           dir: Directory, direct: DirectRows): seq<EventContributor>
    decreases |specs|
  {
    if |specs| == 0 then rows
    else
      var n := |specs| - 1;
      AddContributor(AddContributors(rows, specs[..n], groupTypes, dir, direct), specs[n], groupTypes, dir, direct)
  }

  /** `r` keeps `rows` as they were and only appends fresh rows. */
  predicate Extends(rows: seq<EventContributor>, r: seq<EventContributor>) {
    && |rows| <= |r|
    && r[..|rows|] == rows
    && forall k :: |rows| <= k < |r| ==> r[k] == NewContributor(r[k].userId)
  }

  lemma ExtendsTransitive(a: seq<EventContributor>, b: seq<EventContributor>, c: seq<EventContributor>)
    requires Extends(a, b) && Extends(b, c)
    ensures Extends(a, c)
  {
    assert c[..|a|] == c[..|b|][..|a|];
  }

  /** Group expansion adds exactly the members that resolve, each once. */
  lemma {:induction false} ExpandGroupFacts(rows: seq<EventContributor>, ids: seq<UserId>, users: set<UserId>)
    ensures Extends(rows, ExpandGroup(rows, ids, users))
    ensures UserIds(ExpandGroup(rows, ids, users)) == UserIds(rows) + (set u | u in ids && u in users)
    ensures UniqueUsers(rows) ==> UniqueUsers(ExpandGroup(rows, ids, users))
    decreases |ids|
  {
    if |ids| > 0 {
      var n := |ids| - 1;
      var prev := ExpandGroup(rows, ids[..n], users);
      ExpandGroupFacts(rows, ids[..n], users);
      assert ids == ids[..n] + [ids[n]];
      if ids[n] in users {
        WithContributorUsers(prev, ids[n]);
        assert Extends(prev, WithContributor(prev, ids[n]));
        ExtendsTransitive(rows, prev, WithContributor(prev, ids[n]));
      }
    }
  }

  /**
   * Handling one contributor row keeps the rows it started from, appends only
   * fresh rows, and adds exactly the users that row entitles; only an
   * always-new direct row can give a user a second row.
   */
  lemma AddContributorStep(prev: seq<EventContributor>, spec: ContributorSpec, groupTypes: set<string>,
                           dir: Directory, direct: DirectRows)
    ensures Extends(prev, AddContributor(prev, spec, groupTypes, dir, direct))
    ensures UserIds(AddContributor(prev, spec, groupTypes, dir, direct)) == UserIds(prev) + UsersOf(spec, groupTypes, dir)
    ensures UniqueUsers(prev) && (direct == GetOrCreate || spec.approvableType in groupTypes)
            ==> UniqueUsers(AddContributor(prev, spec, groupTypes, dir, direct))
  {
    var next := AddContributor(prev, spec, groupTypes, dir, direct);
    if spec.approvableType in groupTypes {
      ExpandGroupFacts(prev, GroupMembers(spec, dir), dir.users);
    } else if direct == GetOrCreate {
      WithContributorUsers(prev, spec.approvableId);
    } else {
      assert next[|prev|].userId == spec.approvableId;
      forall u | u in UserIds(next) ensures u in UserIds(prev) + {spec.approvableId} {
        var k :| 0 <= k < |next| && next[k].userId == u;
        if k < |prev| { assert prev[k].userId == u; }
      }
      forall u | u in UserIds(prev) ensures u in UserIds(next) {
        var k :| 0 <= k < |prev| && prev[k].userId == u;
        assert next[k].userId == u;
      }
    }
  }

  /** The users entitled by a prefix of the contributor rows, one more row at a time. */
  lemma EntitledUsersAppend(specs: seq<ContributorSpec>, n: nat, groupTypes: set<string>, dir: Directory)
    requires n < |specs|
    ensures EntitledUsers(specs[..n + 1], groupTypes, dir) == EntitledUsers(specs[..n], groupTypes, dir) + UsersOf(specs[n], groupTypes, dir)
  {
    assert specs[..n + 1][..n] == specs[..n];
  }

  /**
   * Contributor expansion keeps the rows it started from, appends only fresh
   * rows, and afterwards the users holding a row are the starting ones plus
   * exactly the entitled users. With get-or-create for direct rows, or with
   * group rows only, no user ends up with two rows.
   */
  lemma {:induction false} AddContributorsFacts(rows: seq<EventContributor>, specs: seq<ContributorSpec>,
                                                groupTypes: set<string>, dir: Directory, direct: DirectRows)
    ensures Extends(rows, AddContributors(rows, specs, groupTypes, dir, direct))
    ensures UserIds(AddContributors(rows, specs, groupTypes, dir, direct)) == UserIds(rows) + EntitledUsers(specs, groupTypes, dir)
    ensures UniqueUsers(rows) && (direct == GetOrCreate || forall k :: 0 <= k < |specs| ==> specs[k].approvableType in groupTypes)
            ==> UniqueUsers(AddContributors(rows, specs, groupTypes, dir, direct))
    decreases |specs|
  {
    if |specs| > 0 {
      var n := |specs| - 1;
      var prev := AddContributors(rows, specs[..n], groupTypes, dir, direct);
      AddContributorsFacts(rows, specs[..n], groupTypes, dir, direct);
      AddContributorStep(prev, specs[n], groupTypes, dir, direct);
      ExtendsTransitive(rows, prev, AddContributor(prev, specs[n], groupTypes, dir, direct));
      EntitledUsersAppend(specs, n, groupTypes, dir);
      assert specs[..n + 1] == specs;
    }
  }

  /** The contributor rows run materialisation gives a configured component. */
  function ComponentRows(spec: ComponentSpec, cfg: Config, groupTypes: set<string>, dir: Directory): seq<EventContributor> {
    AddContributors([], ContributorsOf(cfg, spec.id), groupTypes, dir, AlwaysNew)
  }

  /** The run components for the resolved component definitions, in order. */
  function Materialize(specs: seq<ComponentSpec>, cfg: Config, groupTypes: set<string>, dir: Directory,
                       now: Time): (r: seq<EventComponent>)
    ensures |r| == |specs|
    decreases |specs|
  {
    if |specs| == 0 then []
    else
      var n := |specs| - 1;
      Materialize(specs[..n], cfg, groupTypes, dir, now) + [NewComponent(specs[n], ComponentRows(specs[n], cfg, groupTypes, dir), now)]
  }

  /** The `i`-th run component is the copy of the `i`-th definition. */
  lemma {:induction false} MaterializeAt(specs: seq<ComponentSpec>, cfg: Config, groupTypes: set<string>,
                                         dir: Directory, now: Time, i: nat)
    requires i < |specs|
    ensures Materialize(specs, cfg, groupTypes, dir, now)[i] == NewComponent(specs[i], ComponentRows(specs[i], cfg, groupTypes, dir), now)
    decreases |specs|
  {
    var n := |specs| - 1;
    var prev := Materialize(specs[..n], cfg, groupTypes, dir, now);
    var last := NewComponent(specs[n], ComponentRows(specs[n], cfg, groupTypes, dir), now);
    var all := Materialize(specs, cfg, groupTypes, dir, now);
    assert all == prev + [last];
    if i < n {
      MaterializeAt(specs[..n], cfg, groupTypes, dir, now, i);
      assert specs[..n][i] == specs[i];
      assert all[i] == prev[i];
    } else {
      assert all[i] == last;
    }
  }

  /** `$binary`: the OR of `1 << step` over the component definitions. */
  function TargetOf(specs: seq<ComponentSpec>): (m: Mask)
    ensures forall b :: b in m <==> b < WordBits && exists k :: 0 <= k < |specs| && specs[k].step == b
    decreases |specs|
  {
    if |specs| == 0 then {}
    else
      var n := |specs| - 1;
      assert forall k :: 0 <= k < n ==> specs[..n][k] == specs[k];
      TargetOf(specs[..n]) + Bit(specs[n].step)
  }

  /** One more definition ORs in its bit and appends its component. */
  lemma AppendSpec(specs: seq<ComponentSpec>, spec: ComponentSpec, cfg: Config, groupTypes: set<string>,
                   dir: Directory, now: Time)
    ensures TargetOf(specs + [spec]) == TargetOf(specs) + Bit(spec.step)
    ensures Materialize(specs + [spec], cfg, groupTypes, dir, now)
            == Materialize(specs, cfg, groupTypes, dir, now) + [NewComponent(spec, ComponentRows(spec, cfg, groupTypes, dir), now)]
  {
    assert (specs + [spec])[..|specs|] == specs;
  }

  /** The accumulators of the component loop of `store` after the definitions `done`. */
  predicate Built(done: seq<ComponentSpec>, cfg: Config, groupTypes: set<string>, dir: Directory, now: Time,
                  comps: seq<EventComponent>, binary: Mask, hasAnyContributor: bool, withoutContributors: seq<nat>) {
    && comps == Materialize(done, cfg, groupTypes, dir, now)
    && binary == TargetOf(done)
    && (hasAnyContributor <==> AnyVoter(comps))
    && BitsOf(withoutContributors) == ApprovedBits(comps)
  }

  /** One iteration of the component loop keeps the accumulators right. */
  lemma BuiltStep(done: seq<ComponentSpec>, spec: ComponentSpec, cfg: Config, groupTypes: set<string>,
                  dir: Directory, now: Time, comps: seq<EventComponent>, binary: Mask, hasAnyContributor: bool,
                  withoutContributors: seq<nat>, comp: EventComponent, has: bool)
    requires Built(done, cfg, groupTypes, dir, now, comps, binary, hasAnyContributor, withoutContributors)
    requires comp == NewComponent(spec, ComponentRows(spec, cfg, groupTypes, dir), now)
    requires has <==> |comp.contributors| > 0
    ensures Built(done + [spec], cfg, groupTypes, dir, now, comps + [comp], binary + Bit(spec.step),
                  hasAnyContributor || has, if has then withoutContributors else withoutContributors + [spec.step])
  {
    AppendSpec(done, spec, cfg, groupTypes, dir, now);
    AppendComponent(comps, comp);
    BitsOfAppend(withoutContributors, spec.step);
  }

  /** The approval the entity's flow uses, if both exist. */
  function RunApproval(model: Requestable, cfg: Config): Option<Approval> {
    match FlowFor(cfg, model.morphClass)
    case None => None
    case Some(flow) => ApprovalFor(cfg, flow.flowId)
  }

  /** `$approvalId`, null when there is no flow or no approval. */
  function RunApprovalId(model: Requestable, cfg: Config): Option<nat> {
    match RunApproval(model, cfg)
    case None => None
    case Some(a) => Some(a.id)
  }

  /** The component definitions of the run after dynamic masking. */
  function RunSpecs(model: Requestable, cfg: Config): seq<ComponentSpec> {
    var approvalId := RunApprovalId(model, cfg);
    Resolved(model, ComponentsOf(cfg, approvalId), approvalId, cfg.conditions)
  }

  /**
   * The run `store` builds from the resolved component definitions `specs`;
   * `hasFlow` tells whether a flow is registered for the entity's type.
   */
  function BuildRun(key: RunKey, approval: Option<Approval>, hasFlow: bool, specs: seq<ComponentSpec>,
                    cfg: Config, groupTypes: set<string>, dir: Directory, now: Time): ApprovalEvent {
    var comps := Materialize(specs, cfg, groupTypes, dir, now);
    var target := TargetOf(specs);
    var step := if !hasFlow || !AnyVoter(comps) then target else ApprovedBits(comps);
    var done := Covers(step, target);
    ApprovalEvent(key, if approval.Some? then Some(approval.value.id) else None,
                  if approval.Some? then approval.value.mode else Parallel,
                  if done then Approved else Draft,
                  step, target, if done then Some(now) else None, None, None, None, comps)
  }

  /** The run `store` creates for an entity that has none yet. */
  function NewEvent(model: Requestable, cfg: Config, groupTypes: set<string>, dir: Directory, now: Time): ApprovalEvent {
    BuildRun(KeyOf(model), RunApproval(model, cfg), FlowFor(cfg, model.morphClass).Some?,
             RunSpecs(model, cfg), cfg, groupTypes, dir, now)
  }

  /** What `store` returns: the stored run, or the one it creates. */
  function StoredEvent(events: map<RunKey, ApprovalEvent>, model: Requestable, cfg: Config,
                       groupTypes: set<string>, dir: Directory, now: Time): ApprovalEvent {
    if KeyOf(model) in events then events[KeyOf(model)] else NewEvent(model, cfg, groupTypes, dir, now)
  }

  /**
   * `store` is idempotent: once the run is stored, a second call returns it
   * and leaves the table as it is.
   */
  lemma StoreIdempotent(events: map<RunKey, ApprovalEvent>, model: Requestable, cfg: Config,
                        groupTypes: set<string>, dir: Directory, now: Time, later: Time)
    ensures var e := StoredEvent(events, model, cfg, groupTypes, dir, now);
            var stored := events[KeyOf(model) := e];
            && StoredEvent(stored, model, cfg, groupTypes, dir, later) == e
            && stored[KeyOf(model) := StoredEvent(stored, model, cfg, groupTypes, dir, later)] == stored
            && (KeyOf(model) in events ==> stored == events)
  {
  }

  /**
   * The rows run materialisation gives a component: fresh rows of exactly the
   * entitled users, none when nobody is entitled.
   */
  lemma ComponentRowsFacts(spec: ComponentSpec, cfg: Config, groupTypes: set<string>, dir: Directory)
    ensures var rows := ComponentRows(spec, cfg, groupTypes, dir);
            var entitled := EntitledUsers(ContributorsOf(cfg, spec.id), groupTypes, dir);
            && UserIds(rows) == entitled
            && (|rows| == 0 <==> entitled == {})
            && forall k :: 0 <= k < |rows| ==> rows[k] == NewContributor(rows[k].userId)
  {
    var rows := ComponentRows(spec, cfg, groupTypes, dir);
    AddContributorsFacts([], ContributorsOf(cfg, spec.id), groupTypes, dir, AlwaysNew);
    assert UserIds([]) == {};
    if |rows| > 0 { assert rows[0].userId in UserIds(rows); }
  }

  /** The components' bits together are the OR of the definitions' step bits. */
  lemma {:induction false} MaterializeBits(specs: seq<ComponentSpec>, cfg: Config, groupTypes: set<string>,
                                           dir: Directory, now: Time)
    ensures AllBits(Materialize(specs, cfg, groupTypes, dir, now)) == TargetOf(specs)
    decreases |specs|
  {
    if |specs| > 0 {
      var n := |specs| - 1;
      var prev := Materialize(specs[..n], cfg, groupTypes, dir, now);
      var c := NewComponent(specs[n], ComponentRows(specs[n], cfg, groupTypes, dir), now);
      assert AllBits(Materialize(specs, cfg, groupTypes, dir, now)) == AllBits(prev) + c.step by {
        AppendComponent(prev, c);
      }
      assert AllBits(prev) == TargetOf(specs[..n]) by {
        MaterializeBits(specs[..n], cfg, groupTypes, dir, now);
      }
    }
  }

  /**
   * The components of a run built from resolved definitions: one per
   * definition, in order, each holding the single bit of its step; `target`
   * is the OR of those bits.
   * A component is auto-approved exactly when no contributor resolved for
   * it, and the users holding its rows are exactly the entitled ones, in
   * fresh rows.
   */
  lemma NewEventComponents(key: RunKey, approval: Option<Approval>, hasFlow: bool,
                           specs: seq<ComponentSpec>, cfg: Config, groupTypes: set<string>,
                           dir: Directory, now: Time)
    ensures var e := BuildRun(key, approval, hasFlow, specs, cfg, groupTypes, dir, now);
            && |e.components| == |specs|
            && e.target == TargetOf(specs)
            && e.target == AllBits(e.components)
            && forall i :: 0 <= i < |specs| ==>
                 var c := e.components[i];
                 var entitled := EntitledUsers(ContributorsOf(cfg, specs[i].id), groupTypes, dir);
                 && c.step == Bit(specs[i].step)
                 && c.logic == specs[i].logic
                 && UserIds(c.contributors) == entitled
                 && (c.IsApproved() <==> entitled == {})
                 && !c.IsRejected() && !c.IsCancelled() && !c.IsRollback()
                 && forall k :: 0 <= k < |c.contributors| ==> c.contributors[k] == NewContributor(c.contributors[k].userId)
  {
    var comps := Materialize(specs, cfg, groupTypes, dir, now);
    forall i | 0 <= i < |specs|
      ensures comps[i] == NewComponent(specs[i], ComponentRows(specs[i], cfg, groupTypes, dir), now)
    {
      MaterializeAt(specs, cfg, groupTypes, dir, now, i);
    }
    forall i | 0 <= i < |specs|
      ensures var rows := ComponentRows(specs[i], cfg, groupTypes, dir);
              var entitled := EntitledUsers(ContributorsOf(cfg, specs[i].id), groupTypes, dir);
              && UserIds(rows) == entitled
              && (|rows| == 0 <==> entitled == {})
              && forall k :: 0 <= k < |rows| ==> rows[k] == NewContributor(rows[k].userId)
    {
      ComponentRowsFacts(specs[i], cfg, groupTypes, dir);
    }
    MaterializeBits(specs, cfg, groupTypes, dir, now);
  }

  /**
   * The status of a run built from resolved definitions: APPROVED (with `approved_at`) exactly when its
   * `step` covers `target`, DRAFT otherwise; `step` never exceeds `target`.
   * Without any contributor, or without a flow, the run is APPROVED with
   * `step = target`; otherwise `step` holds exactly the bits of the
   * auto-approved components. Without an approval the mode is PARALLEL.
   */
  lemma {:induction false} NewEventStatus(key: RunKey, approval: Option<Approval>, hasFlow: bool,
                                          specs: seq<ComponentSpec>, cfg: Config, groupTypes: set<string>,
                                          dir: Directory, now: Time)
    ensures var e := BuildRun(key, approval, hasFlow, specs, cfg, groupTypes, dir, now);
            && (e.status == Approved <==> Covers(e.step, e.target))
            && (e.status == Approved || e.status == Draft)
            && (e.IsApproved() <==> e.status == Approved)
            && !e.IsRejected() && !e.IsCancelled() && !e.IsRollback()
            && Covers(e.target, e.step)
            && (!AnyVoter(e.components) ==> e.status == Approved && e.step == e.target)
            && (hasFlow && AnyVoter(e.components) ==> e.step == ApprovedBits(e.components))
            && (!hasFlow ==> e.status == Approved && e.step == e.target)
            && (approval.None? ==> e.mode == Parallel && e.approvalId.None?)
  {
    var e := BuildRun(key, approval, hasFlow, specs, cfg, groupTypes, dir, now);
    NewEventComponents(key, approval, hasFlow, specs, cfg, groupTypes, dir, now);
    assert Covers(AllBits(e.components), ApprovedBits(e.components));
  }

  /**
   * Without a registered flow there is no approval and no component: the
   * new run is APPROVED, PARALLEL, with `step = target = 0`.
   */
  lemma NoFlowApproves(model: Requestable, cfg: Config, groupTypes: set<string>, dir: Directory, now: Time)
    requires FlowFor(cfg, model.morphClass).None?
    ensures var e := NewEvent(model, cfg, groupTypes, dir, now);
            && e.status == Approved && e.IsApproved()
            && e.step == e.target == {}
            && e.mode == Parallel && e.approvalId.None? && e.components == []
  {
    assert RunSpecs(model, cfg) == [];
    NewEventStatus(KeyOf(model), None, false, [], cfg, groupTypes, dir, now);
  }

  /** The storage the services share: the run table and the read-only configuration. */
  class Database {
    var events: map<RunKey, ApprovalEvent>
    const config: Config
    const directory: Directory

    constructor(config: Config, directory: Directory, events: map<RunKey, ApprovalEvent>)
      ensures this.config == config && this.directory == directory && this.events == events
    {
      this.config := config;
      this.directory := directory;
      this.events := events;
    }
  }

  /**
   * `EventStoreService`. `groupTypes` is `config('approval.group')`; `now` is
   * the time captured when the service is built.
   */
  class EventStoreService {
    const db: Database
    const groupTypes: set<string>
    const now: Time

    constructor(db: Database, groupTypes: set<string>, now: Time)
      ensures this.db == db && this.groupTypes == groupTypes && this.now == now
    {
      this.db := db;
      this.groupTypes := groupTypes;
      this.now := now;
    }

    /**
     * `setEventContributor`: the user's row of the component, created when
     * missing; `row` is the index of the row returned.
     */
    method SetEventContributor(rows: seq<EventContributor>, user: UserId)
      returns (updated: seq<EventContributor>, row: nat)
      ensures updated == WithContributor(rows, user)
      ensures row < |updated| && updated[row].userId == user
      ensures user in UserIds(rows) ==> updated == rows && row == RowOf(rows, user).value
      ensures user !in UserIds(rows) ==> updated == rows + [NewContributor(user)] && row == |rows|
      ensures UserIds(updated) == UserIds(rows) + {user}
      ensures UniqueUsers(rows) ==> UniqueUsers(updated)
    {
      WithContributorUsers(rows, user);
      var found := RowOf(rows, user);
      if found.Some? {
        updated, row := rows, found.value;
      } else {
        updated, row := rows + [NewContributor(user)], |rows|;
      }
    }

    /** The contributor rows of one component as `store` builds them. */
    method ExpandContributors(specs: seq<ContributorSpec>) returns (rows: seq<EventContributor>, has: bool)
      ensures rows == AddContributors([], specs, groupTypes, db.directory, AlwaysNew)
      ensures has <==> |rows| > 0
    {
      var dir := db.directory;
      rows, has := [], false;
      var j := 0;
      while j < |specs|
        invariant 0 <= j <= |specs|
        invariant rows == AddContributors([], specs[..j], groupTypes, dir, AlwaysNew)
        invariant has <==> |rows| > 0
      {
        var spec := specs[j];
        assert specs[..j + 1][..j] == specs[..j];
        if spec.approvableType in groupTypes {
          var ids := GroupMembers(spec, dir);
          var start := rows;
          var k := 0;
          while k < |ids|
            invariant 0 <= k <= |ids|
            invariant rows == ExpandGroup(start, ids[..k], dir.users)
            invariant has <==> |rows| > 0
          {
            assert ids[..k + 1][..k] == ids[..k];
            if ids[k] in dir.users {
              var row;
              rows, row := SetEventContributor(rows, ids[k]);
              has := true;
            }
            k := k + 1;
          }
          assert ids[..k] == ids;
        } else {
          rows := rows + [NewContributor(spec.approvableId)];
          has := true;
        }
        j := j + 1;
      }
      assert specs[..j] == specs;
    }

    /**
     * One iteration of the component loop of `store`: the component copied
     * from the definition with its contributor rows, stamped approved when it
     * got none; `has` is `$componentHasContributor`.
     */
    method CreateComponent(spec: ComponentSpec) returns (comp: EventComponent, has: bool)
      ensures comp == NewComponent(spec, ComponentRows(spec, db.config, groupTypes, db.directory), now)
      ensures has <==> |comp.contributors| > 0
    {
      var rows;
      rows, has := ExpandContributors(ContributorsOf(db.config, spec.id));
      comp := EventComponent(spec.name, Bit(spec.step), spec.logic, spec.color, None, None, None, None, rows);
      if !has {
        comp := comp.(approvedAt := Some(now));
      }
    }

    /**
     * The component loop of `store`: one component per definition, with the
     * OR of their bits (`$binary`), whether any got a contributor
     * (`$hasAnyContributor`), and the steps of those that got none
     * (`$componentsWithoutContributors`).
     */
    method BuildComponents(specs: seq<ComponentSpec>)
      returns (comps: seq<EventComponent>, binary: Mask, hasAnyContributor: bool, withoutContributors: seq<nat>)
      ensures comps == Materialize(specs, db.config, groupTypes, db.directory, now)
      ensures binary == TargetOf(specs)
      ensures hasAnyContributor <==> AnyVoter(comps)
      ensures BitsOf(withoutContributors) == ApprovedBits(comps)
    {
      binary, hasAnyContributor, withoutContributors, comps := {}, false, [], [];
      var i := 0;
      while i < |specs|
        invariant 0 <= i <= |specs|
        invariant Built(specs[..i], db.config, groupTypes, db.directory, now, comps, binary, hasAnyContributor, withoutContributors)
      {
        var spec := specs[i];
        assert specs[..i] + [spec] == specs[..i + 1];
        var comp, has := CreateComponent(spec);
        BuiltStep(specs[..i], spec, db.config, groupTypes, db.directory, now, comps, binary, hasAnyContributor,
                  withoutContributors, comp, has);
        binary := binary + Bit(spec.step);
        hasAnyContributor := hasAnyContributor || has;
        if !has {
          withoutContributors := withoutContributors + [spec.step];
        }
        comps := comps + [comp];
        i := i + 1;
      }
      assert specs[..i] == specs;
    }

    /**
     * The closing part of `store`: `step` and status from `$binary`,
     * `$hasAnyContributor` and `$componentsWithoutContributors`, then the
     * override for an entity without a flow.
     */
    method CloseRun(hasFlow: bool, binary: Mask, hasAnyContributor: bool, withoutContributors: seq<nat>)
      returns (status: Status, step: Mask, approvedAt: Option<Time>)
      ensures step == if !hasFlow || !hasAnyContributor then binary else BitsOf(withoutContributors)
      ensures status == (if Covers(step, binary) then Approved else Draft)
      ensures approvedAt == (if Covers(step, binary) then Some(now) else None)
    {
      status, step, approvedAt := Draft, {}, None;
      if !hasAnyContributor {
        status, step, approvedAt := Approved, binary, Some(now);
      } else {
        var k := 0;
        while k < |withoutContributors|
          invariant 0 <= k <= |withoutContributors|
          invariant step == BitsOf(withoutContributors[..k])
        {
          assert withoutContributors[..k] + [withoutContributors[k]] == withoutContributors[..k + 1];
          BitsOfAppend(withoutContributors[..k], withoutContributors[k]);
          step := step + Bit(withoutContributors[k]);
          k := k + 1;
        }
        assert withoutContributors[..k] == withoutContributors;
        if Covers(step, binary) {
          status, approvedAt := Approved, Some(now);
        }
      }
      if !hasFlow {
        status, step, approvedAt := Approved, binary, Some(now);
      }
    }

    /** The run `store` creates for an entity that has none. */
    method CreateRun(model: Requestable) returns (e: ApprovalEvent)
      ensures e == NewEvent(model, db.config, groupTypes, db.directory, now)
    {
      var cfg := db.config;
      var flow := FlowFor(cfg, model.morphClass);
      var approval: Option<Approval> := None;
      var approvalId: Option<nat> := None;
      var mode := Parallel;
      if flow.Some? {
        approval := ApprovalFor(cfg, flow.value.flowId);
        if approval.Some? {
          approvalId := Some(approval.value.id);
          mode := approval.value.mode;
        }
      }
      assert approval == RunApproval(model, cfg) && approvalId == RunApprovalId(model, cfg);
      var specs := Resolve(model, ComponentsOf(cfg, approvalId), approvalId, cfg.conditions);
      var comps, binary, hasAnyContributor, withoutContributors := BuildComponents(specs);
      var status, step, approvedAt := CloseRun(flow.Some?, binary, hasAnyContributor, withoutContributors);
      e := ApprovalEvent(KeyOf(model), approvalId, mode, status, step, binary, approvedAt, None, None, None, comps);
    }

    /**
     * `store`: the stored run of the entity, or a new one built from the
     * configuration, which is then stored.
     */
    method Store(model: Requestable) returns (e: ApprovalEvent)
      modifies db
      ensures e == StoredEvent(old(db.events), model, db.config, groupTypes, db.directory, now)
      ensures db.events == old(db.events)[KeyOf(model) := e]
    {
      var key := KeyOf(model);
      if key in db.events {
        e := db.events[key];
        assert db.events[key := e] == db.events;
      } else {
        e := CreateRun(model);
        db.events := db.events[key := e];
      }
    }
  }

  /**
   * `getUserName`: the first non-null of `name`, `username`, `full_name`
   * and `email` of a user model, else `User #<id>`.
   */
  function GetUserName(user: User): (s: string)
    ensures !user.isModel ==> s == "User #" + DecimalString(user.id)
    ensures user.isModel && user.name.Some? ==> s == user.name.value
    ensures user.isModel && user.name.None? && user.username.Some? ==> s == user.username.value
    ensures user.isModel && user.name.None? && user.username.None? && user.fullName.Some? ==> s == user.fullName.value
    ensures user.isModel && user.name.None? && user.username.None? && user.fullName.None? ==>
              s == user.email.GetOr("User #" + DecimalString(user.id))
  {
    if user.isModel then
      user.name.GetOr(user.username.GetOr(user.fullName.GetOr(user.email.GetOr("User #" + DecimalString(user.id)))))
    else "User #" + DecimalString(user.id)
  }
}
