# Approval-Binary: a verified model of the bitmask approval engine

Approval-Binary is a Laravel package. It attaches a multi-step approval
workflow to any Eloquent model (the *requestable*). The workflow is defined
in the database:

- a flow is linked to the requestable's morph class;
- an approval holds the flow's definition and run mode (PARALLEL or
  SEQUENTIAL);
- each approval has components, and component *s* owns bit `1 << s`;
- contributor rows name a user, or a group-like entity whose approver ids
  are enumerated;
- optional conditions cut the components down to `step <= max_step`
  (dynamic masking).

A run of the workflow is an `ApprovalEvent`:

- `target` is the OR of the bits of the components included in the run;
- `step` is the OR of the bits approved so far;
- the run is complete when `(step & target) == target`.

This project models the engine in Dafny and proves what it promises:

- `store` materialises a run idempotently;
- dynamic masking picks its `max_step` from the highest-priority matching
  condition;
- approve, reject, cancel, rollback and force are transitions on the run;
- the derived attributes of a run are defined in `is_*`, `component`,
  `current_component` and `can_approve`.

## Layout

| file | module | models |
|---|---|---|
| `base.dfy` | `Base` | Options, timestamps, and 64-bit step masks as sets of bit positions. Also the signed value that `orderBy('step')` sorts on, and the first/last/filter/count query shapes. |
| `conditions.dfy` | `Conditions` | `ApprovalCondition::evaluate` |
| `configuration.dfy` | `Configuration` | The configuration tables and their lookups. The host's users and group-like entities. The requestable. |
| `contributors.dfy` | `EventContributors` | `ApprovalEventContributor`: its flags, its per-vote updates, and the row queries. |
| `components.dfy` | `EventComponents` | `ApprovalEventComponent` and its flags |
| `events.dfy` | `Events` | `ApprovalEvent`: its flags, `component`, `current_component` and `can_approve`. |
| `resolver.dfy` | `ConditionResolver` | `ConditionResolverService::resolve` |
| `store.dfy` | `EventStore` | `EventStoreService`: `store`, `setEventContributor` and `getUserName`. The run table is held by the `Database` class. |
| `transitions.dfy` | `Transitions` | Approve, reject, cancel, rollback and force as functions on the run value. Also `getFirstEventComponent`. |
| `actions.dfy` | `EventActions` | `EventActionService`. Each action is a method that calls `store`, updates the run step by step and saves it. Each method is proved equal to its transition function. |
| `workflow.dfy` | `Workflow` | Properties of the transitions. These include the invariant that ties `step` to the approved components, and the lifecycle of the package's feature tests. |

Modelling choices:

- **Masks.** A step mask is the set of its bit positions, 0..63. OR is
  union, AND is intersection, and `x & ~y` is difference. `1 << s` is the
  single bit `s` when `s < 64`, and no bit otherwise (PHP's shift).
  `orderBy('step')` compares the signed 64-bit value of the mask, so bit 63
  sorts first, as a negative number.
- **Rows.** Persisted rows are values:
  - a run holds its components in creation (id) order;
  - a component holds its contributor rows in creation order.
- **Classes.** The services are classes over a shared `Database`. It holds
  the run table, keyed by `(requestable_type, requestable_id)`, and the
  read-only configuration. Each action method takes the same steps as the
  PHP method:
  1. it calls `Store`;
  2. it checks, stamps and saves;
  3. it is proved to return, and leave in the table, exactly what its
     transition function gives for the stored run.
- **Rollback on error.** A validation error rolls back the transaction, so
  `Approve` and `Reject` restore the table as it was before the call. That
  includes a run `store` had just created.

The model also proves several behaviours of the code that a reader might
not expect:

- `AddContributorStep`: a direct contributor row (a user id, not a group)
  is inserted without looking the user up (`EventStoreService.php`
  145-150). The row is created even when the id resolves to no user, and a
  user who already holds a row on the component gets a second one.

- `StaleMaskCompletesRun`: approve with a mask that no pending component
  carries completes the run, even though components are still open.
- `RejectRequiresRow`: reject refuses every actor on a component without
  contributor rows. Approve accepts any actor there.
- `RejectByContributor`: on an AND component, a tie between rejections and
  approvals does not reject the run. A rejecting row keeps an approval it
  gave earlier.
- `CancelClearsComponent`: cancelling a chosen component sets the run's
  status to REJECTED, not CANCELED.
- `ForceFacts`: force also acts on a run that is already finished.
- `SyncRowsFacts` and `UpsertFacts`: rollback keeps the votes of contributor
  rows that are still entitled. Only the component's timestamps are
  cleared.
- `RollbackReopensRun`: rollback leaves untouched any component that no
  re-resolved definition claims. `RollbackCanBreakWellFormed` shows that
  such a component can stay approved while `step` is cleared and `target`
  loses its bit. `RollbackPreservesWellFormed` shows that the step
  invariant survives rollback when every component is claimed.

## Model

| member | source | states |
|---|---|---|
| Base.Bit | src/Services/EventStoreService.php:117-122 | `1 << s` is exactly bit `s` for `s < 64`, and no bit for a larger shift. |
| Base.BitsOf | src/Services/EventStoreService.php:171-173 | ORing `1 << s` over a list of steps sets exactly the listed steps below 64. |
| Base.BitsOfAppend | src/Services/EventStoreService.php:171-173 | One more step in the loop ORs in exactly its bit. |
| Base.EmptyDifference | src/Models/ApprovalEvent.php:290-295 | `(x & ~y) == 0` holds exactly when every bit of `x` is in `y`. |
| Base.SingleBitValue | src/Services/EventActionService.php:440-444 | The integer value of a single-bit mask is the value of that bit: a power of two, or the sign bit for step 63. |
| Base.BitOrder | src/Services/EventActionService.php:440-444 | For steps below 63, `orderBy('step')` puts a lower step first, and every one-bit mask is positive. |
| Base.DecimalString | src/Services/EventStoreService.php:235 | The decimal text of an id is non-empty and starts with `-` exactly for a negative number. |
| Conditions.LexCompare | src/Models/ApprovalCondition.php:103-109 | Comparing two non-numeric strings gives -1, 0 or 1, and 0 exactly when they are equal. |
| Conditions.Compare | src/Models/ApprovalCondition.php:98-109 | Two numeric operands compare by number (less / equal agree with the integers). Two strings are equal exactly when identical. |
| Conditions.Evaluate | src/Models/ApprovalCondition.php:94-112 | Only the six whitelisted operators can succeed; any other operator is false. On numeric operands each operator means its arithmetic comparison. |
| Conditions.ComplementaryOperators | src/Models/ApprovalCondition.php:103-110 | `!=` is the negation of `==`, `>=` of `<` and `<=` of `>`, for every value and threshold. |
| Conditions.LexCompareAntisymmetric | src/Models/ApprovalCondition.php:104-107 | Swapping two strings flips the sign of their comparison. |
| Conditions.ConverseOperators | src/Models/ApprovalCondition.php:104-107 | `value < threshold` agrees with `threshold > value`, and `<=` with `>=`, for numbers and text alike. |
| Configuration.FlowFor | src/Services/EventStoreService.php:87 | The flow link found has the requestable's key. None exactly when no link has that key. |
| Configuration.ApprovalFor | src/Services/EventStoreService.php:89 | The approval found belongs to the flow. None exactly when the flow has no approval. |
| Configuration.ComponentsOf | src/Services/EventStoreService.php:109 | The components returned are exactly the approval's configured components. A null approval id gives none. |
| Configuration.ContributorsOf | src/Services/EventStoreService.php:127 | The rows returned are exactly the contributor rows of the component. |
| EventContributors.EventContributor.Approved | src/Services/EventActionService.php:94-95 | An approving vote sets `approved_at` on the same user's row and leaves the other timestamps alone. |
| EventContributors.EventContributor.Rejected | src/Services/EventActionService.php:175-176 | A rejecting vote sets `rejected_at` and keeps an earlier `approved_at`. |
| EventContributors.EventContributor.Cancelled | src/Services/EventActionService.php:240-245 | After the bulk update of cancel, a row is cancelled and not approved, rejected or rolled back. |
| EventContributors.NewContributor | src/Services/EventStoreService.php:146-149 | A fresh row belongs to the user and carries no timestamp. |
| EventContributors.RowOf | src/Services/EventActionService.php:78-81 | The user's first row on the component is found. None exactly when the user holds no row. |
| EventContributors.WithContributor | src/Services/EventStoreService.php:204-217 | Get-or-create: the rows are unchanged when the user already has one; otherwise exactly one fresh row is appended. |
| EventContributors.WithContributorUsers | src/Services/EventStoreService.php:204-217 | Get-or-create adds exactly the user to the row holders, and never gives anyone a second row. |
| EventComponents.NewComponent | src/Services/EventStoreService.php:119-160 | A new component carries the definition's single bit, logic and rows. It is auto-approved exactly when it got no row, and has no other timestamp. |
| Events.AllBits | src/Services/EventStoreService.php:116-122 | A bit is in the OR of the components' steps exactly when some component carries it. |
| Events.ApprovedBits | src/Services/EventStoreService.php:154-173 | A bit is in the OR exactly when some approved component carries it. |
| Events.AppendComponent | src/Services/EventStoreService.php:116-161 | Appending a component grows all bits, approved bits and "some component has a voter" by exactly that component's share. |
| Events.Lowest | src/Services/EventActionService.php:440-444 | `orderBy('step')->first()` returns a selected component whose step value is least (earliest row on a tie). None exactly when nothing is selected. |
| Events.LowestOfSameSelection | src/Services/EventActionService.php:440-444 | Two queries that select the same components return the same one. |
| Events.Component | src/Models/ApprovalEvent.php:274-279 | `component` is the lowest-step component sharing no bit with `step`. None exactly when every component shares a bit with `step`. |
| Events.CurrentComponent | src/Models/ApprovalEvent.php:290-295 | `current_component` is the latest component whose bits are all in `step`. None when no component's bits are. |
| Events.CanApprove | src/Models/ApprovalEvent.php:237-266 | True exactly when the run is open, its `component` exists and is open, and that component either has no rows or has a row of the user without an approval. |
| ConditionResolver.InsertByPriority | src/Services/ConditionResolverService.php:40-42 | Inserting a condition by priority adds exactly that condition (as a multiset). |
| ConditionResolver.InsertSorted | src/Services/ConditionResolverService.php:40-42 | Insertion by priority keeps the conditions in descending priority. |
| ConditionResolver.ByPriority | src/Services/ConditionResolverService.php:40-42 | `orderByDesc('priority')` is sorted by descending priority and is a permutation of its input. |
| ConditionResolver.ConditionsFor | src/Services/ConditionResolverService.php:40-42 | The conditions returned are exactly the approval's conditions, sorted by descending priority. |
| ConditionResolver.FirstMatch | src/Services/ConditionResolverService.php:51-57 | The condition picked has a non-null field value that it accepts, and every earlier condition does not match. None when no condition matches. |
| ConditionResolver.UpToStep | src/Services/ConditionResolverService.php:59-61 | The filter keeps exactly the components with `step <= max_step`. |
| ConditionResolver.MaskBy | src/Services/ConditionResolverService.php:51-63 | Masking only removes components and never adds one. |
| ConditionResolver.Resolved | src/Services/ConditionResolverService.php:34-64 | The result is a sub-collection of the components. It is unchanged without dynamic masking, without an approval id (null or 0), or without conditions. |
| ConditionResolver.FindMaxStep | src/Services/ConditionResolverService.php:51-57 | The loop stops at the first condition (in priority order) whose field value is non-null and accepted, and returns its `max_step`. |
| ConditionResolver.Resolve | src/Services/ConditionResolverService.php:34-64 | `resolve`, with its guards and its loop, returns the resolved components. |
| ConditionResolver.FirstMatchWins | src/Services/ConditionResolverService.php:51-57 | A leading condition that matches decides the mask. One that does not match, for instance with a null field, is skipped. |
| ConditionResolver.FirstMatchDecides | src/Services/ConditionResolverService.php:40-57 | The first match in priority order is a matching condition of the approval that no other matching condition outranks. |
| ConditionResolver.NoFirstMatch | src/Services/ConditionResolverService.php:51-63 | When the ordered search finds nothing, no condition of the approval matches. |
| ConditionResolver.HighestPriorityMatchDecides | src/Services/ConditionResolverService.php:34-64 | With masking in effect, either a highest-priority matching condition decides `max_step`, or no condition matches and the components come back unchanged. |
| EventStore.EntitledUsers | src/Services/EventActionService.php:304-335 | `$collectorUser` holds exactly the users some contributor row entitles. |
| EventStore.ExpandGroupFacts | src/Services/EventStoreService.php:133-144 | Group expansion only appends fresh rows, and adds exactly the enumerated ids that resolve to users, each at most once. |
| EventStore.AddContributorStep | src/Services/EventStoreService.php:130-152 | One contributor row keeps the existing rows and adds exactly the users it entitles. Only an always-new direct row can duplicate a user. |
| EventStore.EntitledUsersAppend | src/Services/EventActionService.php:309-336 | Handling one more contributor row adds exactly its users to `$collectorUser`. |
| EventStore.AddContributorsFacts | src/Services/EventStoreService.php:130-152 | The contributor loop keeps existing rows and appends fresh ones. Afterwards the row holders are the old ones plus exactly the entitled users. With get-or-create or groups only, no user gets two rows. |
| EventStore.Materialize | src/Services/EventStoreService.php:116-161 | The loop creates one component per resolved definition. |
| EventStore.MaterializeAt | src/Services/EventStoreService.php:116-161 | The i-th component is created from the i-th definition, with that definition's rows. |
| EventStore.TargetOf | src/Services/EventStoreService.php:116-117 | `$binary` has exactly the bits of the definitions' steps below 64. |
| EventStore.AppendSpec | src/Services/EventStoreService.php:116-161 | One more definition ORs in its bit and appends its component. |
| EventStore.BuiltStep | src/Services/EventStoreService.php:116-161 | One loop iteration keeps `$binary`, `$hasAnyContributor` and `$componentsWithoutContributors` in step with the components built. |
| EventStore.StoreIdempotent | src/Services/EventStoreService.php:81-86 | A second `store` returns the stored run and leaves the table as it is. An existing run is never rebuilt. |
| EventStore.ComponentRowsFacts | src/Services/EventStoreService.php:127-152 | A new component's rows are fresh rows of exactly the entitled users, and there are none when nobody is entitled. |
| EventStore.MaterializeBits | src/Services/EventStoreService.php:116-164 | The created components' bits together equal `target`. |
| EventStore.NewEventComponents | src/Services/EventStoreService.php:109-164 | A new run has one component per definition in order. Each has its single bit, its logic and fresh rows of exactly the entitled users, and is auto-approved exactly when nobody is entitled. |
| EventStore.NewEventStatus | src/Services/EventStoreService.php:163-185 | A new run is APPROVED exactly when `step` covers `target`, and DRAFT otherwise; `step` never exceeds `target`. Without contributors or without a flow, `step = target`. Otherwise `step` holds the auto-approved components' bits. |
| EventStore.NoFlowApproves | src/Services/EventStoreService.php:86-185 | An entity without a registered flow gets an APPROVED, PARALLEL run with no approval, no components and `step = target = 0`. |
| EventStore.Database.constructor | src/Services/EventStoreService.php:81-84 | The table and configuration are as given. |
| EventStore.EventStoreService.constructor | src/Services/EventStoreService.php:52-57 | The service captures the group types and the time. |
| EventStore.EventStoreService.SetEventContributor | src/Services/EventStoreService.php:204-217 | Returns the user's existing row unchanged, or appends one fresh row. Either way the returned row belongs to the user and no duplicate is made. |
| EventStore.EventStoreService.ExpandContributors | src/Services/EventStoreService.php:127-152 | The contributor loop of `store` builds the always-new rows. `$componentHasContributor` holds exactly when some row was made. |
| EventStore.EventStoreService.CreateComponent | src/Services/EventStoreService.php:119-160 | One iteration builds the definition's component, auto-approved exactly when it got no row. |
| EventStore.EventStoreService.BuildComponents | src/Services/EventStoreService.php:112-161 | The component loop builds the materialised components, `$binary` as their target, `$hasAnyContributor`, and the steps left without contributors. |
| EventStore.EventStoreService.CloseRun | src/Services/EventStoreService.php:163-185 | `step` is `target` without a flow or without contributors, and otherwise the auto-approved bits. The run is APPROVED with `approved_at` exactly when `step` covers `target`. |
| EventStore.EventStoreService.CreateRun | src/Services/EventStoreService.php:86-187 | Builds the specified new run for the entity. |
| EventStore.EventStoreService.Store | src/Services/EventStoreService.php:76-192 | Returns the stored run if there is one, else the new run. Afterwards the table maps the entity's key to that run and nothing else changes. |
| EventStore.GetUserName | src/Services/EventStoreService.php:228-239 | For a model user, the first non-null of name, username, full_name and email, else `User #<id>`. For any other user, `User #<id>`. |
| Transitions.FirstEventComponent | src/Services/EventActionService.php:408-445 | The chosen component is pending. With a mask, it is the lowest pending component carrying the mask. In a PARALLEL run, it is the lowest pending one where the user holds a row, if any. Otherwise it is the lowest pending one. None only when no candidate exists. |
| Transitions.CancelRows | src/Services/EventActionService.php:240-245 | Every row of the component is cancelled (`cancelled_at` only), and there are as many rows as before. |
| Transitions.DropOthers | src/Services/EventActionService.php:338-340 | Exactly the rows of collected users survive the delete. |
| Transitions.ComponentWithStep | src/Services/EventActionService.php:291-293 | `updateOrCreate` finds the first component whose step is exactly the bit, or none exists. |
| Transitions.ForceComponents | src/Services/EventActionService.php:378-385 | The bulk updates of force keep the number of components. |
| Workflow.TerminalRunIsFinal | src/Services/EventActionService.php:62-64 | A run that is approved, rejected or cancelled is returned unchanged by approve, reject and cancel alike. |
| Workflow.ApproveWithNothingPending | src/Services/EventActionService.php:67-74 | With no component to choose, approve completes the run: APPROVED, stamped, `step` covering `target`, components untouched. |
| Workflow.ApproveRequiresRow | src/Services/EventActionService.php:76-91 | Approve fails exactly when the chosen component has rows and the user holds none. The error names Approve, the component and the user. |
| Workflow.ApproveWithoutContributors | src/Services/EventActionService.php:105-120 | A component without rows is approved by any actor. Its bit joins `step`, and the run is APPROVED exactly when `step` covers `target`. |
| Workflow.ApproveByContributor | src/Services/EventActionService.php:76-121 | A contributor's vote stamps only their row. OR decides the component; AND decides only when all other rows have approved. A decided component adds its bit, and the run is approved exactly when `target` is then covered. |
| Workflow.VoteOutcome | src/Services/EventActionService.php:94-121 | Writing the vote and, if decided, approving the component changes only that component. `step` grows by its bit exactly when decided. |
| Workflow.LastVoteDecides | src/Services/EventActionService.php:99-104 | After a row is stamped, all rows are approved exactly when all the others already were. |
| Workflow.ApproveKeepsBits | src/Services/EventActionService.php:58-125 | Approve never clears a bit of `step` and never changes `target` or any component's step. |
| Workflow.ApprovingKeepsSteps | src/Services/EventActionService.php:108-120 | Approving a component only adds bits to `step`. |
| Workflow.RejectWithNothingPending | src/Services/EventActionService.php:152-159 | With no component to choose, reject closes the run as REJECTED. `step` and the components are unchanged. |
| Workflow.RejectRequiresRow | src/Services/EventActionService.php:161-173 | Reject fails exactly when the user holds no row on the chosen component, including a component with no rows. |
| Workflow.RejectByContributor | src/Services/EventActionService.php:161-203 | A rejecting vote stamps only the user's row. The run is rejected exactly for OR, or when rejections outnumber approvals. `step` never moves, and an undecided vote leaves the status alone. |
| Workflow.CancelWithNothingPending | src/Services/EventActionService.php:231-238 | With no component to choose, cancel closes the run as CANCELED with `cancelled_at`. |
| Workflow.CancelClearsComponent | src/Services/EventActionService.php:240-254 | Cancel marks the run REJECTED and cancelled. Exactly the component's bit leaves `step`, the component reopens, and each of its rows keeps only `cancelled_at`. Nothing else changes. |
| Workflow.ForceFacts | src/Services/EventActionService.php:369-391 | Force ORs the mask (default `target`) into `step` and sets the requested status (default APPROVED). It stamps the covered components, and every component plus the run when `step == target`. It needs no check, even on a finished run. |
| Workflow.OtherBit | src/Services/EventActionService.php:252 | Adding or clearing one component's bit does not change whether another component's bit is in `step`. |
| Workflow.SingleBitMeets | src/Services/EventActionService.php:252 | A single bit meets `step` exactly when it is in it, and clearing it removes it. |
| Workflow.ReplaceKeepsWellFormed | src/Services/EventActionService.php:94-95 | Rewriting a component's rows keeps the step invariant. |
| Workflow.ApprovingKeepsWellFormed | src/Services/EventActionService.php:108-120 | Approving a component keeps the invariant: each component is approved exactly when its bit is in `step`. |
| Workflow.ApprovePreservesWellFormed | src/Services/EventActionService.php:58-125 | Approve without a mask keeps the step invariant. |
| Workflow.RejectPreservesWellFormed | src/Services/EventActionService.php:143-207 | Reject keeps the step invariant. |
| Workflow.CancelPreservesWellFormed | src/Services/EventActionService.php:222-258 | Cancel keeps the step invariant: the reopened component loses exactly its bit. |
| Workflow.ForcePreservesWellFormed | src/Services/EventActionService.php:369-391 | Force keeps the step invariant. |
| Workflow.NewRunWellFormed | src/Services/EventStoreService.php:109-185 | A run `store` builds from definitions with distinct steps below 64 satisfies the step invariant. |
| Workflow.BuiltRunWellFormed | src/Services/EventStoreService.php:154-179 | A run with the shape `store` gives it (one bit per component, approved exactly without rows) satisfies the invariant. |
| Workflow.VotedRunSteps | src/Services/EventStoreService.php:171-173 | When `step` is the OR of the approved components' distinct bits, a component's bit is in `step` exactly when it is approved. |
| Workflow.CanApproveMeansAccepted | src/Models/ApprovalEvent.php:237-266 | On a run satisfying the invariant, a user that `can_approve` admits is never refused by approve, in either mode. |
| Workflow.StaleMaskCompletesRun | src/Services/EventActionService.php:67-74 | Approve with a mask that no pending component carries completes the run, with components still open. |
| Workflow.FirstStepFirst | src/Services/EventActionService.php:440-444 | Of the two test steps, bit 0 is chosen before bit 1. |
| Workflow.ManagerApprovesFirst | tests/Feature/ApprovalWorkflowTest.php:91-96 | The Manager's approval of the two-step test run sets bit 0 and leaves the run DRAFT. |
| Workflow.DirectorApprovesSecond | tests/Feature/ApprovalWorkflowTest.php:98-104 | The Director's approval then sets bit 1 (`step = 3`) and the run is APPROVED with `approved_at`. |
| Workflow.FullApprovalLifecycle | tests/Feature/ApprovalWorkflowTest.php:78-105 | The full lifecycle test, starting from the run `store` creates for the test configuration: step 0 → 1 (DRAFT) → 3 (APPROVED, stamped). |
| Workflow.TestRunSpecs | tests/Feature/ApprovalWorkflowTest.php:15-76 | For the test configuration, the flow resolves to the sequential approval and its definitions are the Manager step then the Director step. |
| Workflow.TestComponentRows | tests/Feature/ApprovalWorkflowTest.php:62-75 | With users not configured as groups, each test component gets exactly one new row, for its own user. |
| Workflow.TestRunStored | tests/Feature/ApprovalWorkflowTest.php:78-89 | `store` on the test document creates exactly the two-step run: DRAFT, `step` 0, `target` 3, one open component per step. |
| Workflow.TwoStepRunWellFormed | tests/Feature/ApprovalWorkflowTest.php:15-76 | The test run (two OR steps, one contributor each) satisfies the step invariant. |
| Workflow.ManagerRejects | tests/Feature/ApprovalWorkflowTest.php:107-117 | The rejection test, starting from the run `store` creates: the Manager's rejection rejects the run with `rejected_at`, and `step` stays 0. |
| Workflow.SyncRowsFacts | src/Services/EventActionService.php:304-340 | After rollback's row sync, exactly the entitled users hold rows. A kept row keeps its timestamps (votes survive), and every other row is fresh. |
| Workflow.DropOthersUsers | src/Services/EventActionService.php:338-340 | When every collected user holds a row, after the delete exactly the collected users hold rows. |
| Workflow.ExtendsMembers | src/Services/EventActionService.php:325-333 | Get-or-create keeps every existing row and adds only fresh ones. |
| Workflow.UpsertFacts | src/Services/EventActionService.php:288-341 | One definition: its component (first with its bit, else a new one) is reset, renamed and re-synced. Still-entitled rows are kept, and no other component changes. |
| Workflow.UpsertAllFacts | src/Services/EventActionService.php:286-341 | For definitions with distinct bits, every definition ends with a synced component. Components no definition claims are untouched. |
| Workflow.UpsertedAllStep | src/Services/EventActionService.php:288-341 | Handling the last definition keeps what the earlier ones established. |
| Workflow.RollbackReopensRun | src/Services/EventActionService.php:276-354 | Rollback leaves the run DRAFT with `step = 0`, finishing stamps cleared and `rollback_at` set. `target` is the re-resolved bits, every definition has a synced component, and unclaimed components stay as they were. |
| Workflow.RollbackPreservesWellFormed | src/Services/EventActionService.php:276-354 | When every component is claimed by a re-resolved definition, and those have distinct steps below 64, rollback keeps the step invariant: all components reopened, `step` 0, every bit inside `target`. |
| Workflow.RollbackCanBreakWellFormed | src/Services/EventActionService.php:276-354 | A run satisfying the invariant, with an approved component that no re-resolved definition claims, breaks the invariant after rollback. |
| EventActions.EventActionService.constructor | src/Services/EventActionService.php:33-37 | The service keeps its store service and captures the time. |
| EventActions.EventActionService.Save | src/Services/EventActionService.php:119 | Saving writes the run at the entity's key and changes nothing else. |
| EventActions.EventActionService.ApproveComponent | src/Services/EventActionService.php:108-120 | The component is stamped and its bit joins `step`. The run is APPROVED exactly when `step` then covers `target`. |
| EventActions.EventActionService.Approve | src/Services/EventActionService.php:58-125 | `approve` returns the approve transition of the stored run. On success the table holds that run; on the validation error the table is as before the call. |
| EventActions.EventActionService.ApproveStored | src/Services/EventActionService.php:62-124 | The body of approve after `store` produces the approve transition and saves it, or saves nothing on error. |
| EventActions.EventActionService.Reject | src/Services/EventActionService.php:143-207 | `reject` returns the reject transition of the stored run. On success the table holds that run; on the validation error the table is as before. |
| EventActions.EventActionService.RejectStored | src/Services/EventActionService.php:148-205 | The body of reject after `store` produces the reject transition. |
| EventActions.EventActionService.Cancel | src/Services/EventActionService.php:222-258 | `cancel` returns the cancel transition of the stored run and stores it. |
| EventActions.EventActionService.CancelStored | src/Services/EventActionService.php:227-256 | The body of cancel after `store` produces the cancel transition. |
| EventActions.EventActionService.ExpandGroupRows | src/Services/EventActionService.php:312-323 | Get-or-create runs for each approver id that resolves, and exactly those ids are collected. |
| EventActions.EventActionService.SyncContributor | src/Services/EventActionService.php:309-335 | One contributor row is synced with get-or-create, and exactly its entitled users are collected. |
| EventActions.EventActionService.SyncContributors | src/Services/EventActionService.php:304-340 | The contributor loop and the delete give the synced rows. |
| EventActions.EventActionService.UpsertComponent | src/Services/EventActionService.php:291-340 | One iteration resets or creates the component of the definition's bit and syncs its rows. |
| EventActions.EventActionService.UpsertComponents | src/Services/EventActionService.php:286-341 | The component loop upserts every definition in order, and `$binary` is their OR. |
| EventActions.EventActionService.Rollback | src/Services/EventActionService.php:276-354 | `rollback` returns the rollback transition of the stored run (re-resolved definitions) and stores it. |
| EventActions.EventActionService.RollbackStored | src/Services/EventActionService.php:283-352 | The body of rollback after `store` produces the rollback transition. |
| EventActions.EventActionService.Force | src/Services/EventActionService.php:369-391 | `force` returns the force transition of the stored run and stores it. |
| EventActions.EventActionService.ForceStored | src/Services/EventActionService.php:374-389 | The body of force after `store` produces the force transition. |
| EventActions.AddContributorsAppend | src/Services/EventActionService.php:309-336 | The contributor loop handles one more row at a time. |
| EventActions.UpsertPrefix | src/Services/EventActionService.php:288-341 | The component loop of rollback handles one more definition at a time, and `$binary` grows by its bit. |

## Left out

- The following are not part of this model:
  - transactions, row locks (`lockForUpdate`) and concurrency;
  - ULID and row ids;
  - timestamps other than the ones the actions write;
  - observers, auditing, localisation of messages, and loading configuration.

  An action is atomic here. A validation error leaves the run table as it
  was.
- `BinaryService`, `ApprovalService`, the model trait and the abstract
  classes are not part of this model.
- Time, `Auth::id()`, user lookup (`find`) and `getApproverIds` become
  inputs: the service's `now`, an optional user id, and the `Directory` of
  users and group members. `config('approval.group')` becomes the
  `groupTypes` parameter.
- Intermediate `save()` calls inside one transaction are visible only
  through the table state at the end of the action.
- Conditions.Evaluate: numeric operands are integers. The float cast of
  `is_numeric` strings and PHP's loose comparisons between a number and a
  numeric string are not modelled. Non-numeric operands are compared as
  byte strings.
- Column widths are not modelled. A mask is a 64-bit PHP integer, although
  the event table stores `step`/`target` in `integer` and the component
  table stores `step` in `smallInteger`. A configured step that does not
  fit the column is not modelled.
- Negative configured steps (PHP throws on a negative shift) are left out:
  a step is a `nat`.
- `orderBy('step')` ties fall back to creation order. The database's own
  tie order is not modelled.
- ConditionResolver.ByPriority: conditions of equal priority keep their
  table order. The database's order for `orderByDesc('priority')` ties is
  not modelled, so the first matching condition among equal priorities is
  the earliest row here.
- The status string of `force` is typed `Option<Status>`. The error raised
  by `ApprovalStatusEnum::from` for an unknown string is not modelled.
- Workflow.ApprovePreservesWellFormed: proved only for approve without an
  explicit mask. A mask reaching no pending component completes the run
  without setting the components' bits (see `StaleMaskCompletesRun`).
- Transitions.ForceComponents: its contract states only the length. What
  force does to each component is stated by `Workflow.ForceFacts`.
- The `is_*` attributes of runs, components and contributors are plain
  predicates on the timestamps, so they have no rows of their own above.
  They are used throughout the contracts.
