/**
 * `ConditionResolverService::resolve`: dynamic masking. The conditions of
 * the approval are tried in descending priority; the first whose field has
 * a non-null value that satisfies it decides `max_step`, and the components
 * are then restricted to `step <= max_step`. Without dynamic masking, without
 * conditions, or without a match, the components are returned as given.
 */
module ConditionResolver {
  import opened Base
  import opened Conditions
  import opened Configuration

  /** `orderByDesc('priority')` holds of `cs`. */
  predicate SortedByPriority(cs: seq<ApprovalCondition>) {
    forall i, j :: 0 <= i < j < |cs| ==> cs[i].priority >= cs[j].priority
  }

  /** Inserts `c` after every condition of priority at least its own. */
  function InsertByPriority(c: ApprovalCondition, s: seq<ApprovalCondition>): (r: seq<ApprovalCondition>)
    ensures multiset(r) == multiset(s) + multiset{c}
    decreases |s|
  {
    if |s| == 0 then [c]
    else if c.priority > s[0].priority then [c] + s
    else
      assert s == [s[0]] + s[1..];
      [s[0]] + InsertByPriority(c, s[1..])
  }

  /** Insertion keeps the order. */
  lemma {:induction false} InsertSorted(c: ApprovalCondition, s: seq<ApprovalCondition>)
    requires SortedByPriority(s)
    ensures SortedByPriority(InsertByPriority(c, s))
    decreases |s|
  {
    if |s| > 0 && c.priority <= s[0].priority {
      var rest := InsertByPriority(c, s[1..]);
      InsertSorted(c, s[1..]);
      forall k | 0 <= k < |rest| ensures rest[k].priority <= s[0].priority {
        assert rest[k] in multiset(rest);
        if rest[k] != c {
          assert rest[k] in multiset(s[1..]);
          var m :| 0 <= m < |s[1..]| && s[1..][m] == rest[k];
          assert s[m + 1] == rest[k];
        }
      }
      assert InsertByPriority(c, s) == [s[0]] + rest;
    }
  }

  /**
   * The conditions in descending priority; conditions of equal priority keep
   * their table order.
   */
  function ByPriority(cs: seq<ApprovalCondition>): (r: seq<ApprovalCondition>)
    ensures SortedByPriority(r)
    ensures multiset(r) == multiset(cs)
    decreases |cs|
  {
    if |cs| == 0 then []
    else
      var n := |cs| - 1;
      assert cs == cs[..n] + [cs[n]];
      InsertSorted(cs[n], ByPriority(cs[..n]));
      InsertByPriority(cs[n], ByPriority(cs[..n]))
  }

  /**
   * `ApprovalCondition::where('approval_id', $approvalId)->orderByDesc('priority')->get()`.
   */
  function ConditionsFor(table: seq<ApprovalCondition>, approvalId: nat): (r: seq<ApprovalCondition>)
    ensures SortedByPriority(r)
    ensures forall c :: c in r <==> c in table && c.approvalId == approvalId
  {
    var mine := Filter(table, (c: ApprovalCondition) => c.approvalId == approvalId);
    var r := ByPriority(mine);
    forall c ensures c in r <==> c in mine {
      calc {
        c in r;
        c in multiset(r);
        c in multiset(mine);
        c in mine;
      }
    }
    r
  }

  /**
   * The condition decides: its field has a non-null value (`?? null`) and
   * `evaluate` accepts that value.
   */
  predicate Matches(c: ApprovalCondition, values: map<string, Option<Value>>) {
    c.field in values && values[c.field].Some? && Evaluate(c, values[c.field].value)
  }

  /** Index of the first condition, in priority order, that matches. */
  function FirstMatch(ordered: seq<ApprovalCondition>, values: map<string, Option<Value>>): (r: Option<nat>)
    ensures r.Some? ==> r.value < |ordered| && Matches(ordered[r.value], values)
    ensures r.Some? ==> forall k :: 0 <= k < r.value ==> !Matches(ordered[k], values)
    ensures r.None? ==> forall k :: 0 <= k < |ordered| ==> !Matches(ordered[k], values)
  {
    FirstIndex(ordered, (c: ApprovalCondition) => Matches(c, values))
  }

  /** `->filter(fn ($component) => $component->step <= $maxStep)`. */
  function UpToStep(components: seq<ComponentSpec>, maxStep: int): (r: seq<ComponentSpec>)
    ensures forall c :: c in r <==> c in components && c.step <= maxStep
    ensures |r| <= |components|
  {
    Filter(components, (c: ComponentSpec) => c.step <= maxStep)
  }

  /**
   * The masking loop over conditions already in priority order: the first
   * match restricts the components to its `max_step`; no match keeps them.
   */
  function MaskBy(ordered: seq<ApprovalCondition>, values: map<string, Option<Value>>,
                  components: seq<ComponentSpec>): (r: seq<ComponentSpec>)
    ensures forall c :: c in r ==> c in components
  {
    match FirstMatch(ordered, values)
    case Some(i) => UpToStep(components, ordered[i].maxStep)
    case None => components
  }

  /** `!$approvalId`: null and 0 are both falsy in PHP. */
  predicate NoApproval(approvalId: Option<nat>) {
    approvalId.None? || approvalId.value == 0
  }

  /** What `resolve` returns. */
  function Resolved(model: Requestable, components: seq<ComponentSpec>, approvalId: Option<nat>,
                    table: seq<ApprovalCondition>): (r: seq<ComponentSpec>)
    ensures forall c :: c in r ==> c in components
    ensures model.conditionValues.None? || NoApproval(approvalId) ==> r == components
    ensures approvalId.Some? && ConditionsFor(table, approvalId.value) == [] ==> r == components
  {
    if model.conditionValues.None? || NoApproval(approvalId) then components
    else
      var ordered := ConditionsFor(table, approvalId.value);
      if |ordered| == 0 then components
      else MaskBy(ordered, model.conditionValues.value, components)
  }

  /** The `max_step` of the first matching condition, if any. */
  function MaxStep(ordered: seq<ApprovalCondition>, values: map<string, Option<Value>>): Option<int> {
    match FirstMatch(ordered, values)
    case Some(i) => Some(ordered[i].maxStep)
    case None => None
  }

  /**
   * The loop of `resolve`: walk the conditions in priority order, skip those
   * whose field is missing or null or whose test fails, stop at the first
   * that holds.
   */
  method FindMaxStep(conditions: seq<ApprovalCondition>, values: map<string, Option<Value>>)
    returns (maxStep: Option<int>)
    ensures maxStep == MaxStep(conditions, values)
  {
    maxStep := None;
    var i := 0;
    while i < |conditions|
      invariant 0 <= i <= |conditions|
      invariant forall k :: 0 <= k < i ==> !Matches(conditions[k], values)
    {
      var c := conditions[i];
      var fieldValue := if c.field in values then values[c.field] else None;
      if fieldValue.Some? && Evaluate(c, fieldValue.value) {
        assert FirstMatch(conditions, values) == Some(i);
        maxStep := Some(c.maxStep);
        return;
      }
      i := i + 1;
    }
  }

  /** `resolve` as the source runs it: the guards, then the masking loop. */
  method Resolve(model: Requestable, components: seq<ComponentSpec>, approvalId: Option<nat>,
                 table: seq<ApprovalCondition>) returns (r: seq<ComponentSpec>)
    ensures r == Resolved(model, components, approvalId, table)
  {
    if model.conditionValues.None? || NoApproval(approvalId) {
      return components;
    }
    var conditions := ConditionsFor(table, approvalId.value);
    if |conditions| == 0 {
      return components;
    }
    var maxStep := FindMaxStep(conditions, model.conditionValues.value);
    if maxStep.Some? {
      r := UpToStep(components, maxStep.value);
    } else {
      r := components;
    }
  }

  /**
   * First match wins, stated without the search: a condition that does not
   * match is skipped (a missing or null field included), one that matches
   * decides.
   */
  lemma FirstMatchWins(ordered: seq<ApprovalCondition>, values: map<string, Option<Value>>,
                       components: seq<ComponentSpec>)
    requires |ordered| > 0
    ensures Matches(ordered[0], values) ==>
              MaskBy(ordered, values, components) == UpToStep(components, ordered[0].maxStep)
    ensures !Matches(ordered[0], values) ==>
              MaskBy(ordered, values, components) == MaskBy(ordered[1..], values, components)
  {
    if !Matches(ordered[0], values) {
      match FirstMatch(ordered[1..], values)
      case Some(i) =>
        assert ordered[1..][i] == ordered[i + 1];
        assert FirstMatch(ordered, values) == Some(i + 1);
      case None =>
        assert FirstMatch(ordered, values) == None;
    }
  }

  /**
   * `c` is a condition of the approval that matches and that no other
   * matching condition of the approval outranks.
   */
  predicate Decides(c: ApprovalCondition, table: seq<ApprovalCondition>, approvalId: nat,
                    values: map<string, Option<Value>>) {
    && c in table && c.approvalId == approvalId && Matches(c, values)
    && forall d :: d in table && d.approvalId == approvalId && Matches(d, values) ==> d.priority <= c.priority
  }

  /** No condition of the approval matches. */
  predicate NoneMatches(table: seq<ApprovalCondition>, approvalId: nat, values: map<string, Option<Value>>) {
    forall d :: d in table && d.approvalId == approvalId ==> !Matches(d, values)
  }

  /** In priority order, the first matching condition is outranked by no other match. */
  lemma FirstMatchDecides(ordered: seq<ApprovalCondition>, table: seq<ApprovalCondition>, approvalId: nat,
                          values: map<string, Option<Value>>, i: nat)
    requires SortedByPriority(ordered)
    requires forall c :: c in ordered <==> c in table && c.approvalId == approvalId
    requires i < |ordered| && Matches(ordered[i], values)
    requires forall k :: 0 <= k < i ==> !Matches(ordered[k], values)
    ensures Decides(ordered[i], table, approvalId, values)
  {
    var c := ordered[i];
    forall d | d in table && d.approvalId == approvalId && Matches(d, values)
      ensures d.priority <= c.priority
    {
      var k :| 0 <= k < |ordered| && ordered[k] == d;
      assert i <= k;
    }
  }

  /** When no condition in priority order matches, none of the approval's conditions does. */
  lemma NoFirstMatch(ordered: seq<ApprovalCondition>, table: seq<ApprovalCondition>, approvalId: nat,
                     values: map<string, Option<Value>>)
    requires forall c :: c in ordered <==> c in table && c.approvalId == approvalId
    requires FirstMatch(ordered, values) == None
    ensures NoneMatches(table, approvalId, values)
  {
    forall d | d in table && d.approvalId == approvalId
      ensures !Matches(d, values)
    {
      var k :| 0 <= k < |ordered| && ordered[k] == d;
    }
  }

  /**
   * With masking in effect, the result is decided by a matching condition of
   * the approval that no other matching condition outranks; with no match
   * the components come back unchanged.
   */
  lemma HighestPriorityMatchDecides(
    model: Requestable, components: seq<ComponentSpec>, approvalId: Option<nat>,
    table: seq<ApprovalCondition>)
    requires model.conditionValues.Some? && !NoApproval(approvalId)
    ensures var r := Resolved(model, components, approvalId, table);
            || (exists c :: Decides(c, table, approvalId.value, model.conditionValues.value) &&
                            r == UpToStep(components, c.maxStep))
            || (NoneMatches(table, approvalId.value, model.conditionValues.value) && r == components)
  {
    var values := model.conditionValues.value;
    var ordered := ConditionsFor(table, approvalId.value);
    match FirstMatch(ordered, values)
    case Some(i) =>
      FirstMatchDecides(ordered, table, approvalId.value, values, i);
      assert Resolved(model, components, approvalId, table) == UpToStep(components, ordered[i].maxStep);
    case None =>
      NoFirstMatch(ordered, table, approvalId.value, values);
  }
}
