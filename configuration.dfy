/**
 * The configuration tables the services read (flow links, approvals,
 * component definitions, contributor definitions, conditions) and the host
 * application's side: users, group-like entities that enumerate approver ids,
 * and the requestable entity under approval. All are read-only here.
 */
module Configuration {
  import opened Base
  import opened Conditions

  /** `ApprovalTypeEnum`: how the components of a run may be acted on. */
  datatype RunMode = Parallel | Sequential

  /** `ContributorTypeEnum`: all contributors must approve, or any one suffices. */
  datatype Logic = And | Or

  /** An `ApprovalFlowComponent` row: links a requestable type (`key`) to a flow. */
  datatype FlowLink = FlowLink(key: string, flowId: nat)

  /** An `Approval` row: the definition a flow uses, with its run mode. */
  datatype Approval = Approval(id: nat, flowId: nat, mode: RunMode)

  /** An `ApprovalComponent` row: one configured step (0-based index `step`). */
  datatype ComponentSpec = ComponentSpec(
    id: nat, approvalId: nat, name: string, step: nat, logic: Logic, color: string)

  /**
   * An `ApprovalContributor` row. When `approvableType` is one of the
   * configured group types, `approvableId` names a group-like entity;
   * otherwise it is a user id.
   */
  datatype ContributorSpec = ContributorSpec(
    componentId: nat, approvableType: string, approvableId: nat)

  /** The configuration tables, each in row (id) order. */
  datatype Config = Config(
    flows: seq<FlowLink>,
    approvals: seq<Approval>,
    components: seq<ComponentSpec>,
    contributors: seq<ContributorSpec>,
    conditions: seq<ApprovalCondition>)

  /** A reference to a group-like entity: its class name and key. */
  datatype GroupRef = GroupRef(approvableType: string, approvableId: nat)

  /**
   * The host application's identities. `users` are the ids `find` resolves;
   * `groups` has an entry exactly for the entities that exist and implement
   * the approver-enumeration interface, holding what `getApproverIds` returns.
   */
  datatype Directory = Directory(users: set<UserId>, groups: map<GroupRef, seq<UserId>>)

  /**
   * The entity under approval: its morph class and key (the run's natural
   * key) and, when it implements dynamic masking, its condition values
   * (a missing key or a `None` value is PHP null).
   */
  datatype Requestable = Requestable(
    morphClass: string, key: string, conditionValues: Option<map<string, Option<Value>>>)

  /**
   * The acting user. `isModel` tells whether it is an Eloquent model, whose
   * name-like attributes may be read.
   */
  datatype User = User(
    id: UserId, isModel: bool,
    name: Option<string>, username: Option<string>,
    fullName: Option<string>, email: Option<string>)

  /** `ApprovalFlowComponent::where('key', $key)->first()`. */
  function FlowFor(cfg: Config, key: string): (r: Option<FlowLink>)
    ensures r.Some? ==> r.value in cfg.flows && r.value.key == key
    ensures r.None? ==> forall f :: f in cfg.flows ==> f.key != key
  {
    match FirstIndex(cfg.flows, (f: FlowLink) => f.key == key)
    case Some(i) => Some(cfg.flows[i])
    case None => None
  }

  /** `Approval::where('approval_flow_id', $flowId)->first()`. */
  function ApprovalFor(cfg: Config, flowId: nat): (r: Option<Approval>)
    ensures r.Some? ==> r.value in cfg.approvals && r.value.flowId == flowId
    ensures r.None? ==> forall a :: a in cfg.approvals ==> a.flowId != flowId
  {
    match FirstIndex(cfg.approvals, (a: Approval) => a.flowId == flowId)
    case Some(i) => Some(cfg.approvals[i])
    case None => None
  }

  /**
   * `ApprovalComponent::where('approval_id', $approvalId)->get()`; a null id
   * selects nothing, since every component belongs to an approval.
   */
  function ComponentsOf(cfg: Config, approvalId: Option<nat>): (r: seq<ComponentSpec>)
    ensures approvalId.None? ==> r == []
    ensures forall c :: c in r <==> approvalId.Some? && c in cfg.components && c.approvalId == approvalId.value
  {
    if approvalId.None? then []
    else Filter(cfg.components, (c: ComponentSpec) => c.approvalId == approvalId.value)
  }

  /** `ApprovalContributor::where('approval_component_id', $componentId)->get()`. */
  function ContributorsOf(cfg: Config, componentId: nat): (r: seq<ContributorSpec>)
    ensures forall c :: c in r <==> c in cfg.contributors && c.componentId == componentId
  {
    Filter(cfg.contributors, (c: ContributorSpec) => c.componentId == componentId)
  }
}
