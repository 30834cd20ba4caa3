/** `public/attendance/checkin.php`: the check-in form. Staff pick the member; a member user
    always checks in themselves. The posted form runs a chain of guards, each only while no
    earlier one has failed, and then records the visit and, for staff, notifies the member. */
module CheckIn {
  import opened Php
  import opened Calendar
  import opened Schema
  import opened Functions
  import MembershipValidation

  /** The messages the guard chain can add to `$errors`. */
  datatype CheckInError =
    | NoMemberSelected
    | SelectedMemberNotFound
    | MemberNotActive(status: MemberStatus)
    | AlreadyCheckedIn
    | NoActivePaidMembership
    | InsertFailed

  /** The guard chain on a selected member id, as a specification: the first guard that fails,
      in the order of the page (selected, exists and Active, no open session today, a Paid
      unexpired membership). */
  function FirstFailingGuard(t: Tables, memberId: int, today: Day): (e: Option<CheckInError>)
    ensures e == Some(NoMemberSelected) <==> memberId == 0
    ensures e == Some(SelectedMemberNotFound) <==>
              memberId != 0 && FindBy(t.members, MemberKey, memberId).None?
    ensures (exists s :: e == Some(MemberNotActive(s))) <==>
              memberId != 0 && FindBy(t.members, MemberKey, memberId).Some?
              && !FindBy(t.members, MemberKey, memberId).value.status.Active?
    ensures e == Some(AlreadyCheckedIn) <==>
              memberId != 0 && FindBy(t.members, MemberKey, memberId).Some?
              && FindBy(t.members, MemberKey, memberId).value.status.Active?
              && HasOpenSessionOn(t.attendance, memberId, today)
    ensures e == Some(NoActivePaidMembership) <==>
              memberId != 0 && FindBy(t.members, MemberKey, memberId).Some?
              && FindBy(t.members, MemberKey, memberId).value.status.Active?
              && !HasOpenSessionOn(t.attendance, memberId, today)
              && !MembershipValidation.HasQualifying(t.memberships, memberId, today)
    ensures e.None? <==>
              memberId != 0 && FindBy(t.members, MemberKey, memberId).Some?
              && FindBy(t.members, MemberKey, memberId).value.status.Active?
              && !HasOpenSessionOn(t.attendance, memberId, today)
              && MembershipValidation.HasQualifying(t.memberships, memberId, today)
  {
    if memberId == 0 then Some(NoMemberSelected)
    else
      var found := FindBy(t.members, MemberKey, memberId);
      if found.None? then Some(SelectedMemberNotFound)
      else if !found.value.status.Active? then Some(MemberNotActive(found.value.status))
      else if HasOpenSessionOn(t.attendance, memberId, today) then Some(AlreadyCheckedIn)
      else if !MembershipValidation.HasQualifying(t.memberships, memberId, today) then Some(NoActivePaidMembership)
      else None
  }

  /** The guard chain as the page runs it: each check appends to the error list only while the
      list is still empty, so at most one error comes out, that of the first failing guard. */
  method CheckInGuards(db: Database, memberId: int, today: Day) returns (errors: seq<CheckInError>)
    ensures |errors| <= 1
    ensures errors == [] <==> FirstFailingGuard(db.Contents(), memberId, today).None?
    ensures errors != [] ==> Some(errors[0]) == FirstFailingGuard(db.Contents(), memberId, today)
  {
    errors := [];
    if memberId == 0 {
      errors := errors + [NoMemberSelected];
    }
    if errors == [] && memberId != 0 {
      var found := FindBy(db.members, MemberKey, memberId);
      if found.None? {
        errors := errors + [SelectedMemberNotFound];
      } else if !found.value.status.Active? {
        errors := errors + [MemberNotActive(found.value.status)];
      }
    }
    if errors == [] {
      if HasOpenSessionOn(db.attendance, memberId, today) {
        errors := errors + [AlreadyCheckedIn];
      }
    }
    if errors == [] {
      if !MembershipValidation.HasQualifying(db.memberships, memberId, today) {
        errors := errors + [NoActivePaidMembership];
      }
    }
  }

  /** The page and the AJAX endpoint disagree on an Active member who has both a session open
      today and no Paid unexpired membership: the page reports the open session, the endpoint
      (asked to check in) reports the missing membership, because it looks at memberships
      first. */
  lemma GuardOrderDiffers(t: Tables, memberId: int, today: Day)
    requires memberId > 0
    requires FindBy(t.members, MemberKey, memberId).Some?
    requires FindBy(t.members, MemberKey, memberId).value.status.Active?
    requires HasOpenSessionOn(t.attendance, memberId, today)
    requires !MembershipValidation.HasQualifying(t.memberships, memberId, today)
    ensures FirstFailingGuard(t, memberId, today) == Some(AlreadyCheckedIn)
    ensures MembershipValidation.Resolve(t, memberId, today).NoActivePaidMembership?
  {
  }

  /** Whenever both entry points let a check-in through, they agree on the member being
      entitled: the page's guards pass exactly when the endpoint finds an entitlement and no
      session is open today. */
  lemma GuardsAgreeOnSuccess(t: Tables, memberId: int, today: Day)
    requires memberId > 0
    ensures FirstFailingGuard(t, memberId, today).None? <==>
              MembershipValidation.Resolve(t, memberId, today).Entitled?
              && !HasOpenSessionOn(t.attendance, memberId, today)
  {
  }

  /** `date('H:i')` of a timestamp. */
  function ClockTime(now: Instant): (r: string)
    ensures |r| == 5 && r[2] == ':'
  {
    TwoDigits((now % SecondsPerDay) / 3600) + ":" + TwoDigits((now % 3600) / 60)
  }

  /** The notification text a staff check-in sends to the member. */
  function CheckedInByMessage(role: string, name: string, now: Instant): string {
    "You were checked in by " + UpperFirst(role) + " " + name + " at " + ClockTime(now)
  }

  /** The stored workout type: the trimmed input, or 'General' when that is empty in PHP's
      sense ("" or "0"). */
  function WorkoutTypeOf(posted: Option<string>): (w: string)
    ensures !IsEmpty(w)
    ensures posted.Some? && !IsEmpty(Trim(posted.value)) ==> w == Trim(posted.value)
  {
    var w := if posted.Some? then Trim(posted.value) else "";
    if IsEmpty(w) then "General" else w
  }

  /** The stored trainer: the posted one (`(int)` of a non-empty value), replaced by the session's
      trainer id when none or 0 was posted and the user is a trainer with one in the session. */
  function TrainerOf(posted: Option<int>, isTrainer: bool, sessionTrainer: Option<int>): (tr: Option<int>)
    ensures posted.Some? && posted.value != 0 ==> tr == posted
    ensures (posted.None? || posted == Some(0)) && isTrainer && sessionTrainer.Some? ==> tr == sessionTrainer
    ensures (posted.None? || posted == Some(0)) && !(isTrainer && sessionTrainer.Some?) ==> tr == posted
  {
    if (posted.None? || posted == Some(0)) && isTrainer && sessionTrainer.Some? then sessionTrainer else posted
  }

  datatype Outcome =
    | LoginRequired         // `require_login()` redirects
    | NotAMember            // a member user without a member profile is sent to the dashboard
    | FormShown             // a GET request
    | Rejected(errors: seq<CheckInError>)
    | Recorded(attendanceId: int, notified: bool)   // `notified`: a notification row was stored

  /** The member a posted form checks in: a member user's own, from the session; otherwise the
      posted `member_id`. */
  function SelectedMember(session: Session, postedMemberId: int): int
    reads session
  {
    if !session.IsStaff() && session.CurrentMemberId().Some? then session.CurrentMemberId().value
    else postedMemberId
  }

  /** The row the page inserts. */
  function VisitOf(id: int, memberId: int, workoutType: string, trainer: Option<int>, notes: string,
                   now: Instant): (v: Attendance)
    ensures v.checkOut.None? && v.durationMinutes.None? && v.checkIn == now
  {
    Attendance(id, memberId, trainer, now, None, None, workoutType, notes)
  }

  /** Whether a staff check-in notifies the member: the caller is staff and the member has a
      linked user account (a non-zero `user_id`). */
  predicate Notifies(isStaff: bool, m: Option<Member>)
    ensures Notifies(isStaff, m) ==> isStaff && m.Some? && m.value.userId.Some?
    ensures !isStaff ==> !Notifies(isStaff, m)
  {
    isStaff && m.Some? && m.value.userId.Some? && m.value.userId.value != 0
  }

  /** A logged-in caller the page lets through to the form: staff, or a member user with a
      member profile. */
  predicate FormAllowed(session: Session)
    reads session
  {
    session.IsLoggedIn() && (session.IsStaff() || session.CurrentMemberId().Some?)
  }

  /** The whole page. `postedMemberId` is `(int)$_POST['member_id']` (0 when absent),
      `postedTrainer` the `(int)` of a non-empty posted trainer, `dbFails` an exception thrown
      by the insert, which the page reports as an error, and `notifyFails` an exception inside
      `create_notification`, which that function swallows: the check-in stands without the
      notification. */
  method CheckInMember(db: Database, session: Session, isPost: bool, postedMemberId: int,
                       workoutType: Option<string>, postedTrainer: Option<int>, notes: Option<string>,
                       now: Instant, dbFails: bool, notifyFails: bool) returns (out: Outcome)
    requires db.Valid()
    modifies db
    ensures db.Valid()
    ensures !session.IsLoggedIn() ==> out == LoginRequired
    ensures session.IsLoggedIn() && !session.IsStaff() && session.CurrentMemberId().None? ==> out == NotAMember
    ensures out == FormShown <==> FormAllowed(session) && !isPost
    ensures !out.Recorded? ==> db.Contents() == old(db.Contents())
    ensures FormAllowed(session) && isPost ==>
              var guard := FirstFailingGuard(old(db.Contents()), SelectedMember(session, postedMemberId), DayOf(now));
              && (guard.Some? ==> out == Rejected([guard.value]))
              && (guard.None? && dbFails ==> out == Rejected([InsertFailed]))
              && (guard.None? && !dbFails ==> out.Recorded?)
    ensures out.Recorded? ==>
              && FormAllowed(session) && isPost && !dbFails
              && FirstFailingGuard(old(db.Contents()), SelectedMember(session, postedMemberId), DayOf(now)).None?
    ensures out.Recorded? ==>
              && out.attendanceId == NextId(old(db.attendance), AttendanceKey)
              && db.attendance == old(db.attendance) + [
                   VisitOf(out.attendanceId, SelectedMember(session, postedMemberId), WorkoutTypeOf(workoutType),
                           TrainerOf(postedTrainer, session.IsTrainer(), session.trainerId),
                           if notes.Some? then Trim(notes.value) else "", now)]
    ensures out.Recorded? ==>
              var member := FindBy(old(db.members), MemberKey, SelectedMember(session, postedMemberId));
              && out.notified == (Notifies(session.IsStaff(), member) && !notifyFails)
              && db.notifications == old(db.notifications) + (
                   if out.notified then
                     [Notification(NextId(old(db.notifications), NotificationKey), member.value.userId.value,
                                   CheckedInByMessage(if session.userRole.Some? then session.userRole.value else "",
                                                      session.userName, now))]
                   else [])
    ensures db.Contents() == old(db.Contents()).(attendance := db.attendance, notifications := db.notifications)
  {
    if !session.IsLoggedIn() {
      return LoginRequired;
    }
    var isMemberUser := !session.IsStaff();
    if isMemberUser && session.CurrentMemberId().None? {
      return NotAMember;
    }
    if !isPost {
      return FormShown;
    }
    var memberId := SelectedMember(session, postedMemberId);
    var today := DayOf(now);
    var errors := CheckInGuards(db, memberId, today);
    if errors != [] {
      return Rejected(errors);
    }
    if dbFails {
      return Rejected([InsertFailed]);
    }
    var attendanceId, notified := RecordCheckIn(db, session, memberId, WorkoutTypeOf(workoutType),
                                                TrainerOf(postedTrainer, session.IsTrainer(), session.trainerId),
                                                if notes.Some? then Trim(notes.value) else "", now, notifyFails);
    out := Recorded(attendanceId, notified);
  }

  /** The page once every guard has passed: the INSERT of the visit, then the notification a
      staff check-in sends to a member with a user account, unless its insert fails. */
  method RecordCheckIn(db: Database, session: Session, memberId: int, workoutType: string, trainer: Option<int>,
                       notes: string, now: Instant, notifyFails: bool) returns (attendanceId: int, notified: bool)
    requires db.Valid()
    requires !HasOpenSessionOn(db.attendance, memberId, DayOf(now))
    modifies db
    ensures db.Valid()
    ensures attendanceId == NextId(old(db.attendance), AttendanceKey)
    ensures var member := FindBy(old(db.members), MemberKey, memberId);
            && notified == (Notifies(session.IsStaff(), member) && !notifyFails)
            && db.Contents() == old(db.Contents()).(
                 attendance := old(db.attendance) + [VisitOf(attendanceId, memberId, workoutType, trainer, notes, now)],
                 notifications := old(db.notifications) + (
                   if notified then
                     [Notification(NextId(old(db.notifications), NotificationKey), member.value.userId.value,
                                   CheckedInByMessage(if session.userRole.Some? then session.userRole.value else "",
                                                      session.userName, now))]
                   else []))
  {
    var visit := VisitOf(NextId(db.attendance, AttendanceKey), memberId, workoutType, trainer, notes, now);
    db.AddVisit(visit);
    var member := FindBy(db.members, MemberKey, memberId);
    notified := Notifies(session.IsStaff(), member) && !notifyFails;
    if notified {
      var role := if session.userRole.Some? then session.userRole.value else "";
      db.AddNotification(Notification(NextId(db.notifications, NotificationKey), member.value.userId.value,
                                      CheckedInByMessage(role, session.userName, now)));
    }
    attendanceId := visit.id;
  }
}
