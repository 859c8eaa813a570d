/**
 * `ApprovalEventContributor`: one row per (run component, user) entitled to
 * vote, with its own four lifecycle timestamps, and the queries the services
 * run over the rows of one component.
 */
module EventContributors {
  import opened Base

  datatype EventContributor = EventContributor(
    userId: UserId,
    approvedAt: Option<Time>,
    rejectedAt: Option<Time>,
    cancelledAt: Option<Time>,
    rollbackAt: Option<Time>)
  {
    /** `is_approved`: `approved_at` is set. */
    predicate IsApproved() { approvedAt.Some? }

    /** `is_rejected`: `rejected_at` is set. */
    predicate IsRejected() { rejectedAt.Some? }

    /** `is_cancelled`: `cancelled_at` is set. */
    predicate IsCancelled() { cancelledAt.Some? }

    /** `is_rollback`: `rollback_at` is set. */
    predicate IsRollback() { rollbackAt.Some? }

    /** The row after a vote to approve. */
    function Approved(now: Time): (r: EventContributor)
      ensures r.userId == userId && r.IsApproved()
      ensures r.rejectedAt == rejectedAt && r.cancelledAt == cancelledAt && r.rollbackAt == rollbackAt
    {
      this.(approvedAt := Some(now))
    }

    /** The row after a vote to reject; an earlier approval stays recorded. */
    function Rejected(now: Time): (r: EventContributor)
      ensures r.userId == userId && r.IsRejected()
      ensures r.approvedAt == approvedAt && r.cancelledAt == cancelledAt && r.rollbackAt == rollbackAt
    {
      this.(rejectedAt := Some(now))
    }

    /** The row after its component is cancelled: only `cancelled_at` remains. */
    function Cancelled(now: Time): (r: EventContributor)
      ensures r.userId == userId && r.IsCancelled()
      ensures !r.IsApproved() && !r.IsRejected() && !r.IsRollback()
    {
      this.(cancelledAt := Some(now), approvedAt := None, rejectedAt := None, rollbackAt := None)
    }
  }

  /** A freshly created row: the user, no timestamp. */
  function NewContributor(user: UserId): (c: EventContributor)
    ensures c.userId == user
    ensures !c.IsApproved() && !c.IsRejected() && !c.IsCancelled() && !c.IsRollback()
  {
    EventContributor(user, None, None, None, None)
  }

  /** The users holding a row. */
  function UserIds(rows: seq<EventContributor>): set<UserId> {
    set k | 0 <= k < |rows| :: rows[k].userId
  }

  /** `->where('user_id', $user)->first()` over the rows of one component. */
  function RowOf(rows: seq<EventContributor>, user: UserId): (r: Option<nat>)
    ensures r.Some? ==> r.value < |rows| && rows[r.value].userId == user
    ensures r.Some? ==> forall k :: 0 <= k < r.value ==> rows[k].userId != user
    ensures r.None? <==> user !in UserIds(rows)
  {
    var r := FirstIndex(rows, (c: EventContributor) => c.userId == user);
    assert r.Some? ==> rows[r.value].userId in UserIds(rows);
    r
  }

  /** `->whereNotNull('approved_at')->count()`. */
  function ApprovalCount(rows: seq<EventContributor>): nat {
    Count(rows, (c: EventContributor) => c.IsApproved())
  }

  /** `->whereNotNull('rejected_at')->count()`. */
  function RejectionCount(rows: seq<EventContributor>): nat {
    Count(rows, (c: EventContributor) => c.IsRejected())
  }

  /** `->whereNull('approved_at')->doesntExist()`. */
  predicate AllApproved(rows: seq<EventContributor>) {
    forall k :: 0 <= k < |rows| ==> rows[k].IsApproved()
  }

  /** No user holds two rows. */
  predicate UniqueUsers(rows: seq<EventContributor>) {
    forall i, j :: 0 <= i < j < |rows| ==> rows[i].userId != rows[j].userId
  }

  /**
   * The rows after `setEventContributor` (get-or-create): unchanged when the
   * user already holds a row, else one fresh row appended.
   */
  function WithContributor(rows: seq<EventContributor>, user: UserId): (r: seq<EventContributor>)
    ensures user in UserIds(rows) ==> r == rows
    ensures user !in UserIds(rows) ==> r == rows + [NewContributor(user)]
  {
    if RowOf(rows, user).Some? then rows else rows + [NewContributor(user)]
  }

  /** Get-or-create adds exactly the user, and never a second row for anyone. */
  lemma WithContributorUsers(rows: seq<EventContributor>, user: UserId)
    ensures UserIds(WithContributor(rows, user)) == UserIds(rows) + {user}
    ensures UniqueUsers(rows) ==> UniqueUsers(WithContributor(rows, user))
    ensures |WithContributor(rows, user)| <= |rows| + 1
  {
    var r := WithContributor(rows, user);
    if user !in UserIds(rows) {
      assert r[|rows|].userId == user;
      forall u | u in UserIds(r) ensures u in UserIds(rows) + {user} {
        var k :| 0 <= k < |r| && r[k].userId == u;
        if k < |rows| { assert rows[k].userId == u; }
      }
      forall u | u in UserIds(rows) ensures u in UserIds(r) {
        var k :| 0 <= k < |rows| && rows[k].userId == u;
        assert r[k].userId == u;
      }
      if UniqueUsers(rows) {
        forall i, j | 0 <= i < j < |r| ensures r[i].userId != r[j].userId {
          if j == |rows| {
            assert rows[i].userId in UserIds(rows);
          }
        }
      }
    }
  }
}
