/** `public/workouts/start-plan.php`: a member starts following a workout plan, unless they
    already follow it. */
module PlanStart {
  import opened Php
  import opened Calendar
  import opened Schema
  import opened Functions

  datatype Outcome =
    | AccessDenied        // `require_member()`: not logged in, or not a member
    | ProfileMissing      // no member id in the session
    | NoRequest           // a GET request only redirects
    | InvalidPlan         // no plan id, or 0
    | AlreadyFollowing
    | StartFailed         // a database exception
    | Started(assignmentId: int)

  /** The row the page inserts: assigned by the current user, started now, Active. */
  function NewAssignment(id: int, memberId: int, planId: int, userId: int, now: Instant): (a: Assignment)
    ensures a.status.Active? && a.endDate.None?
  {
    Assignment(id, memberId, planId, userId, now, None, AssignmentStatus.Active)
  }

  /** The whole script. `planId` is `(int)$_POST['workout_plan_id']`, 0 when absent. The plan id
      is not checked against `workout_plans`, as in the script. */
  method StartPlan(db: Database, session: Session, isPost: bool, planId: int, now: Instant, dbFails: bool)
    returns (out: Outcome)
    requires db.Valid()
    modifies db
    ensures db.Valid()
    ensures !(session.IsLoggedIn() && session.IsMember()) ==> out == AccessDenied
    ensures session.IsLoggedIn() && session.IsMember() && session.CurrentMemberId().None? ==> out == ProfileMissing
    ensures out == NoRequest <==> session.IsLoggedIn() && session.IsMember() && session.CurrentMemberId().Some? && !isPost
    ensures out == InvalidPlan <==>
              session.IsLoggedIn() && session.IsMember() && session.CurrentMemberId().Some? && isPost && planId == 0
    ensures out == AlreadyFollowing <==>
              && isPost && planId != 0 && !dbFails && session.IsLoggedIn() && session.IsMember()
              && session.CurrentMemberId().Some?
              && HasActiveAssignment(old(db.assignments), session.CurrentMemberId().value, planId)
    ensures !out.Started? ==> db.Contents() == old(db.Contents())
    ensures out.Started? ==>
              && isPost && planId != 0 && !dbFails && session.CurrentMemberId().Some?
              && !HasActiveAssignment(old(db.assignments), session.CurrentMemberId().value, planId)
              && out.assignmentId == NextId(old(db.assignments), AssignmentKey)
              && db.Contents() == old(db.Contents()).(assignments := old(db.assignments) + [
                   NewAssignment(out.assignmentId, session.CurrentMemberId().value, planId, session.userId.value, now)])
    ensures out.Started? <==>
              && isPost && planId != 0 && !dbFails && session.IsLoggedIn() && session.IsMember()
              && session.CurrentMemberId().Some?
              && !HasActiveAssignment(old(db.assignments), session.CurrentMemberId().value, planId)
  {
    if !session.IsLoggedIn() || !session.IsMember() {
      return AccessDenied;
    }
    var memberId := session.CurrentMemberId();
    if memberId.None? {
      return ProfileMissing;
    }
    if !isPost {
      return NoRequest;
    }
    if planId == 0 {
      return InvalidPlan;
    }
    if dbFails {
      return StartFailed;
    }
    if HasActiveAssignment(db.assignments, memberId.value, planId) {
      return AlreadyFollowing;
    }
    var a := NewAssignment(NextId(db.assignments, AssignmentKey), memberId.value, planId, session.userId.value, now);
    db.AddAssignment(a);
    out := Started(a.id);
  }

  /** Starting the same plan twice in a row: the second request is refused, so a member never
      follows a plan twice at once. */
  method StartTwice(db: Database, session: Session, planId: int, first: Instant, second: Instant)
    returns (o1: Outcome, o2: Outcome)
    requires db.Valid()
    modifies db
    ensures o1.Started? ==> o2 == AlreadyFollowing
    ensures db.Valid() && AtMostOneActivePerPlan(db.assignments)
  {
    o1 := StartPlan(db, session, true, planId, first, false);
    if o1.Started? {
      var last := |db.assignments| - 1;
      assert IsActiveAssignment(db.assignments[last], session.CurrentMemberId().value, planId);
    }
    o2 := StartPlan(db, session, true, planId, second, false);
  }
}
