/** `public/workouts/stop-plan.php`: a member stops following a workout plan; every Active
    assignment of theirs to that plan becomes Completed. */
module PlanStop {
  import opened Php
  import opened Calendar
  import opened Schema
  import opened Functions

  predicate IsPairRow(a: Assignment, memberId: int, planId: int) {
    a.memberId == memberId && a.planId == planId
  }

  predicate PlanExists(plans: seq<WorkoutPlan>, planId: int) {
    FindBy(plans, PlanKey, planId).Some?
  }

  /** The first assignment of the pair, in table order. */
  function FirstPairRow(rows: seq<Assignment>, memberId: int, planId: int): (r: Option<Assignment>)
    ensures r.None? <==> forall i :: 0 <= i < |rows| ==> !IsPairRow(rows[i], memberId, planId)
    ensures r.Some? ==> exists i :: 0 <= i < |rows| && rows[i] == r.value && IsPairRow(rows[i], memberId, planId)
                                    && forall j :: 0 <= j < i ==> !IsPairRow(rows[j], memberId, planId)
  {
    if rows == [] then None
    else if IsPairRow(rows[0], memberId, planId) then Some(rows[0])
    else
      var r := FirstPairRow(rows[1..], memberId, planId);
      assert forall i :: 1 <= i < |rows| ==> rows[i] == rows[1..][i - 1];
      if r.Some? then
        var k :| 0 <= k < |rows[1..]| && rows[1..][k] == r.value && IsPairRow(rows[1..][k], memberId, planId)
                 && forall j :: 0 <= j < k ==> !IsPairRow(rows[1..][j], memberId, planId);
        assert rows[k + 1] == r.value;
        r
      else r
  }

  /** The script's lookup as written: the assignments of the pair joined with the plan, one row
      fetched, with no condition on the status; in table order this is the pair's first row. */
  function LookupAsWritten(rows: seq<Assignment>, plans: seq<WorkoutPlan>, memberId: int, planId: int)
    : (r: Option<Assignment>)
    ensures r.Some? ==> r.value in rows && IsPairRow(r.value, memberId, planId) && PlanExists(plans, planId)
  {
    if PlanExists(plans, planId) then FirstPairRow(rows, memberId, planId) else None
  }

  /** The pair's Active row, if any. */
  function FirstActiveRow(rows: seq<Assignment>, memberId: int, planId: int): (r: Option<Assignment>)
    ensures r.None? <==> !HasActiveAssignment(rows, memberId, planId)
    ensures r.Some? ==> r.value in rows && IsActiveAssignment(r.value, memberId, planId)
  {
    if rows == [] then None
    else if IsActiveAssignment(rows[0], memberId, planId) then Some(rows[0])
    else
      var r := FirstActiveRow(rows[1..], memberId, planId);
      assert forall i :: 1 <= i < |rows| ==> rows[i] == rows[1..][i - 1];
      r
  }

  /** The lookup the script evidently intends: the pair's Active row when there is one,
      otherwise its first row, so that the status it reports is Active exactly when the pair has
      an Active assignment. */
  function Lookup(rows: seq<Assignment>, plans: seq<WorkoutPlan>, memberId: int, planId: int)
    : (r: Option<Assignment>)
    ensures r.Some? ==> r.value in rows && IsPairRow(r.value, memberId, planId) && PlanExists(plans, planId)
    ensures r.None? <==> !PlanExists(plans, planId) || forall i :: 0 <= i < |rows| ==> !IsPairRow(rows[i], memberId, planId)
    ensures r.Some? && r.value.status.Active? <==> PlanExists(plans, planId) && HasActiveAssignment(rows, memberId, planId)
  {
    if !PlanExists(plans, planId) then None
    else
      var active := FirstActiveRow(rows, memberId, planId);
      if active.Some? then active
      else
        var first := FirstPairRow(rows, memberId, planId);
        if first.Some? then
          first
        else first
  }

  /** A member who stopped a plan and started it again has a Completed row followed by an Active
      one; the script's lookup fetches the Completed row, so the plan can no longer be stopped. */
  lemma RestartedPlanCannotBeStopped()
    ensures
      var plans := [WorkoutPlan(3, "Strength", "", "Beginner", 4, "Full body", "", None, true)];
      var rows := [Assignment(1, 7, 3, 20, 1000, Some(2000), Completed),
                   Assignment(2, 7, 3, 20, 3000, None, AssignmentStatus.Active)];
      && HasActiveAssignment(rows, 7, 3)
      && LookupAsWritten(rows, plans, 7, 3) == Some(rows[0])
      && LookupAsWritten(rows, plans, 7, 3).value.status == Completed
      && Lookup(rows, plans, 7, 3) == Some(rows[1])
  {
    var plans := [WorkoutPlan(3, "Strength", "", "Beginner", 4, "Full body", "", None, true)];
    var rows := [Assignment(1, 7, 3, 20, 1000, Some(2000), Completed),
                 Assignment(2, 7, 3, 20, 3000, None, AssignmentStatus.Active)];
    assert IsActiveAssignment(rows[1], 7, 3);
    assert FindBy(plans, PlanKey, 3) == Some(plans[0]);
    assert FirstActiveRow(rows, 7, 3) == FirstActiveRow(rows[1..], 7, 3);
  }

  /** `UPDATE member_workouts SET status = 'Completed', end_date = NOW() WHERE member_id = ? AND
      workout_plan_id = ? AND status = 'Active'`. */
  function CompleteActive(rows: seq<Assignment>, memberId: int, planId: int, at: Instant): (r: seq<Assignment>)
    ensures |r| == |rows|
    ensures forall i :: 0 <= i < |rows| && !IsActiveAssignment(rows[i], memberId, planId) ==> r[i] == rows[i]
    ensures forall i :: 0 <= i < |rows| && IsActiveAssignment(rows[i], memberId, planId) ==>
              r[i] == rows[i].(status := Completed, endDate := Some(at))
  {
    seq(|rows|, i requires 0 <= i < |rows| =>
      if IsActiveAssignment(rows[i], memberId, planId) then rows[i].(status := Completed, endDate := Some(at))
      else rows[i])
  }

  /** Completing assignments keeps the ids, leaves the pair with no Active assignment and never
      creates a second Active assignment for any pair. */
  lemma CompleteActiveKeepsInvariants(rows: seq<Assignment>, memberId: int, planId: int, at: Instant)
    requires DistinctBy(rows, AssignmentKey) && AtMostOneActivePerPlan(rows)
    ensures DistinctBy(CompleteActive(rows, memberId, planId, at), AssignmentKey)
    ensures AtMostOneActivePerPlan(CompleteActive(rows, memberId, planId, at))
    ensures !HasActiveAssignment(CompleteActive(rows, memberId, planId, at), memberId, planId)
  {
    var r := CompleteActive(rows, memberId, planId, at);
    forall i, j | 0 <= i < j < |r|
      ensures AssignmentKey(r[i]) != AssignmentKey(r[j])
    {
      assert AssignmentKey(rows[i]) != AssignmentKey(rows[j]);
    }
    forall i, j | 0 <= i < j < |r| && r[i].status.Active? && r[j].status.Active?
      ensures r[i].memberId != r[j].memberId || r[i].planId != r[j].planId
    {
      assert rows[i].status.Active? && rows[j].status.Active?;
    }
  }

  /** `rowCount()` of that UPDATE. */
  function ActiveCount(rows: seq<Assignment>, memberId: int, planId: int): (n: nat)
    ensures n > 0 <==> HasActiveAssignment(rows, memberId, planId)
  {
    if rows == [] then 0
    else
      var rest := ActiveCount(rows[1..], memberId, planId);
      assert HasActiveAssignment(rows, memberId, planId) <==>
             IsActiveAssignment(rows[0], memberId, planId) || HasActiveAssignment(rows[1..], memberId, planId) by {
        if HasActiveAssignment(rows[1..], memberId, planId) {
          var i :| 0 <= i < |rows[1..]| && IsActiveAssignment(rows[1..][i], memberId, planId);
          assert IsActiveAssignment(rows[i + 1], memberId, planId);
        }
        if HasActiveAssignment(rows, memberId, planId) && !IsActiveAssignment(rows[0], memberId, planId) {
          var i :| 0 <= i < |rows| && IsActiveAssignment(rows[i], memberId, planId);
          assert IsActiveAssignment(rows[1..][i - 1], memberId, planId);
        }
      }
      if IsActiveAssignment(rows[0], memberId, planId) then rest + 1 else rest
  }

  datatype Outcome =
    | AccessDenied        // `require_member()`: not logged in, or not a member
    | ProfileMissing      // no member id in the session
    | NoRequest           // a GET request only redirects
    | InvalidPlan         // no plan id, or 0
    | NotAssigned
    | AlreadyInStatus(status: AssignmentStatus)
    | StopFailed          // a database exception or a failed UPDATE
    | NotCurrentlyActive  // the UPDATE touched no row
    | Stopped(planName: string)

  /** A request that passes the script's guards: a logged-in member with a member profile,
      posting a non-zero plan id. */
  predicate StopRequested(session: Session, isPost: bool, planId: int)
    reads session
  {
    session.IsLoggedIn() && session.IsMember() && session.CurrentMemberId().Some? && isPost && planId != 0
  }

  /** The whole script, with the lookup corrected as `Lookup` describes. */
  method StopPlan(db: Database, session: Session, isPost: bool, planId: int, now: Instant, dbFails: bool)
    returns (out: Outcome)
    requires db.Valid()
    modifies db
    ensures db.Valid()
    ensures !(session.IsLoggedIn() && session.IsMember()) ==> out == AccessDenied
    ensures session.IsLoggedIn() && session.IsMember() && session.CurrentMemberId().None? ==> out == ProfileMissing
    ensures out == NoRequest <==> session.IsLoggedIn() && session.IsMember() && session.CurrentMemberId().Some? && !isPost
    ensures out == InvalidPlan <==>
              session.IsLoggedIn() && session.IsMember() && session.CurrentMemberId().Some? && isPost && planId == 0
    ensures out == StopFailed <==> StopRequested(session, isPost, planId) && dbFails
    ensures out == NotAssigned <==>
              StopRequested(session, isPost, planId) && !dbFails
              && Lookup(old(db.assignments), old(db.plans), session.CurrentMemberId().value, planId).None?
    ensures out.AlreadyInStatus? <==>
              StopRequested(session, isPost, planId) && !dbFails
              && Lookup(old(db.assignments), old(db.plans), session.CurrentMemberId().value, planId).Some?
              && !Lookup(old(db.assignments), old(db.plans), session.CurrentMemberId().value, planId).value.status.Active?
    ensures out.AlreadyInStatus? ==>
              && out.status == Lookup(old(db.assignments), old(db.plans), session.CurrentMemberId().value, planId).value.status
              && out.status == Completed && !HasActiveAssignment(old(db.assignments), session.CurrentMemberId().value, planId)
    ensures out != NotCurrentlyActive
    ensures !out.Stopped? ==> db.Contents() == old(db.Contents())
    ensures out.Stopped? <==>
              && session.IsLoggedIn() && session.IsMember() && session.CurrentMemberId().Some?
              && isPost && planId != 0 && !dbFails && PlanExists(old(db.plans), planId)
              && HasActiveAssignment(old(db.assignments), session.CurrentMemberId().value, planId)
    ensures out.Stopped? ==>
              && out.planName == FindBy(old(db.plans), PlanKey, planId).value.planName
              && db.Contents() == old(db.Contents()).(
                   assignments := CompleteActive(old(db.assignments), session.CurrentMemberId().value, planId, now))
              && !HasActiveAssignment(db.assignments, session.CurrentMemberId().value, planId)
  {
    if !session.IsLoggedIn() || !session.IsMember() {
      return AccessDenied;
    }
    var memberId := session.CurrentMemberId();
    if memberId.None? {
      return ProfileMissing;
    }
    if !isPost {
      return NoRequest;
    }
    if planId == 0 {
      return InvalidPlan;
    }
    if dbFails {
      return StopFailed;
    }
    var assignment := Lookup(db.assignments, db.plans, memberId.value, planId);
    if assignment.None? {
      return NotAssigned;
    }
    if !assignment.value.status.Active? {
      return AlreadyInStatus(assignment.value.status);
    }
    var planName := FindBy(db.plans, PlanKey, planId).value.planName;
    var count := ActiveCount(db.assignments, memberId.value, planId);
    var t := db.Contents();
    var completed := CompleteActive(db.assignments, memberId.value, planId, now);
    CompleteActiveKeepsInvariants(db.assignments, memberId.value, planId, now);
    db.assignments := completed;
    assert db.Contents() == t.(assignments := completed);
    out := if count > 0 then Stopped(planName) else NotCurrentlyActive;
  }
}
