/** `public/ajax/validate-membership.php`: the entitlement check behind the front desk's
    "check" and "checkin" buttons. A member is entitled when their status is Active and one of
    their memberships is Paid and not yet expired; the one that expires last is reported,
    with the days it has left and whether it expires within a week. */
module MembershipValidation {
  import opened Php
  import opened Calendar
  import opened Schema
  import opened Functions

  /** The WHERE clause of the membership query: the member's, not expired today, and Paid. */
  predicate Qualifies(m: Membership, memberId: int, today: Day) {
    m.memberId == memberId && m.expiryDate >= today && m.paymentStatus == Paid
  }

  predicate HasQualifying(ms: seq<Membership>, memberId: int, today: Day) {
    exists i :: 0 <= i < |ms| && Qualifies(ms[i], memberId, today)
  }

  /** `ORDER BY expiry_date DESC LIMIT 1` over the qualifying memberships: one with the
      latest expiry, or none when none qualifies. */
  function LatestQualifying(ms: seq<Membership>, memberId: int, today: Day): (r: Option<Membership>)
    ensures r.None? <==> !HasQualifying(ms, memberId, today)
    ensures r.Some? ==> r.value in ms && Qualifies(r.value, memberId, today)
    ensures r.Some? ==> forall i :: 0 <= i < |ms| && Qualifies(ms[i], memberId, today) ==>
                          ms[i].expiryDate <= r.value.expiryDate
  {
    if ms == [] then None
    else
      var rest := LatestQualifying(ms[1..], memberId, today);
      assert forall i :: 1 <= i < |ms| ==> ms[i] == ms[1..][i - 1];
      if !Qualifies(ms[0], memberId, today) then rest
      else if rest.Some? && rest.value.expiryDate > ms[0].expiryDate then rest
      else Some(ms[0])
  }

  /** `DATEDIFF(expiry_date, CURDATE())`. */
  function DaysLeft(m: Membership, today: Day): (d: int)
    ensures today + d == m.expiryDate
  {
    m.expiryDate - today
  }

  /** The membership status the response reports: 'warning' within 7 days of expiry. */
  datatype ExpiryState = Valid | Warning

  function ExpiryStateOf(daysLeft: int): (s: ExpiryState)
    ensures s == Warning <==> daysLeft <= 7
  {
    if daysLeft <= 7 then Warning else Valid
  }

  /** The outcome of the member and membership queries. */
  datatype Entitlement =
    | MemberNotFound
    | MemberNotActive(member: Member)
    | NoActivePaidMembership(member: Member)
    | Entitled(member: Member, membership: Membership, daysLeft: int, state: ExpiryState)

  /** Lines 43-103: the member lookup, the status check, the membership selection and the
      derived days-left and expiry state. */
  function Resolve(t: Tables, memberId: int, today: Day): (e: Entitlement)
    ensures e.MemberNotFound? <==> FindBy(t.members, MemberKey, memberId).None?
    ensures !e.MemberNotFound? ==> Some(e.member) == FindBy(t.members, MemberKey, memberId)
    ensures e.MemberNotActive? <==> !e.MemberNotFound? && !e.member.status.Active?
    ensures e.Entitled? <==> !e.MemberNotFound? && e.member.status.Active?
                             && HasQualifying(t.memberships, memberId, today)
    ensures e.Entitled? ==>
              && e.membership in t.memberships && Qualifies(e.membership, memberId, today)
              && (forall i :: 0 <= i < |t.memberships| && Qualifies(t.memberships[i], memberId, today) ==>
                    t.memberships[i].expiryDate <= e.membership.expiryDate)
              && e.daysLeft >= 0 && today + e.daysLeft == e.membership.expiryDate
              && (e.state == Warning <==> e.daysLeft <= 7)
  {
    match FindBy(t.members, MemberKey, memberId)
    case None => MemberNotFound
    case Some(member) =>
      if !member.status.Active? then MemberNotActive(member)
      else
        match LatestQualifying(t.memberships, memberId, today)
        case None => NoActivePaidMembership(member)
        case Some(ms) =>
          var days := DaysLeft(ms, today);
          Entitled(member, ms, days, ExpiryStateOf(days))
  }

  /** Entitlement looks only at the member's status and their own memberships: no other
      member's rows and no attendance can change it. */
  lemma ResolveDependsOnlyOnMemberRows(t: Tables, u: Tables, memberId: int, today: Day)
    requires FindBy(t.members, MemberKey, memberId) == FindBy(u.members, MemberKey, memberId)
    requires forall m :: m in t.memberships && m.memberId == memberId <==> m in u.memberships && m.memberId == memberId
    ensures Resolve(t, memberId, today).Entitled? <==> Resolve(u, memberId, today).Entitled?
    ensures Resolve(t, memberId, today).Entitled? ==>
              Resolve(t, memberId, today).daysLeft == Resolve(u, memberId, today).daysLeft
  {
    var e, f := Resolve(t, memberId, today), Resolve(u, memberId, today);
    if HasQualifying(t.memberships, memberId, today) {
      var i :| 0 <= i < |t.memberships| && Qualifies(t.memberships[i], memberId, today);
      assert t.memberships[i] in u.memberships;
    }
    if HasQualifying(u.memberships, memberId, today) {
      var i :| 0 <= i < |u.memberships| && Qualifies(u.memberships[i], memberId, today);
      assert u.memberships[i] in t.memberships;
    }
    if e.Entitled? {
      assert e.membership in u.memberships && f.membership in t.memberships;
      var j :| 0 <= j < |t.memberships| && t.memberships[j] == f.membership;
      var k :| 0 <= k < |u.memberships| && u.memberships[k] == e.membership;
    }
  }

  /** The `X-Requested-With` header marks an AJAX request. */
  predicate IsAjax(requestedWith: Option<string>)
    ensures IsAjax(requestedWith) <==> requestedWith.Some? && ToLower(requestedWith.value) == "xmlhttprequest"
  {
    requestedWith.Some? && !IsEmpty(requestedWith.value) && ToLower(requestedWith.value) == "xmlhttprequest"
  }

  datatype Failure =
    | InvalidMemberId
    | NotFound
    | StatusNotActive
    | NoActivePaidMembershipFound
    | AlreadyCheckedInToday

  datatype Response =
    | Forbidden           // 403: not an AJAX request
    | Unauthorized        // 401: no user in the session
    | MethodNotAllowed    // 405: not a POST
    | Failed(failure: Failure, memberName: Option<string>, memberStatus: Option<MemberStatus>)
    | Succeeded(checkedIn: bool, member: Member, membership: Membership, daysLeft: int,
                state: ExpiryState, attendanceId: Option<int>)

  function FullName(m: Member): string {
    m.firstName + " " + m.lastName
  }

  /** The attendance row the 'checkin' action inserts. Its INSERT names no workout type, so the
      row gets the column default, which the schema scripts decide; the model stores "". */
  function AutoCheckIn(id: int, memberId: int, now: Instant): (v: Attendance)
    ensures v.id == id && v.memberId == memberId && v.checkIn == now && v.trainerId.None?
    ensures v.checkOut.None? && v.durationMinutes.None? && v.notes == "Auto check-in via system"
  {
    Attendance(id, memberId, None, now, None, None, "", "Auto check-in via system")
  }

  /** The audit-log row every successful validation appends. */
  function ValidationLog(id: int, userId: int, checkin: bool, memberId: int, now: Instant): (l: AuditLog)
    ensures l.id == id && l.userId == userId && l.tableName == "members" && l.recordId == memberId && l.createdAt == now
    ensures l.action == if checkin then "member_checkin" else "membership_validation"
  {
    AuditLog(id, userId, if checkin then "member_checkin" else "membership_validation", "members", memberId, now)
  }

  /** Lines 105-172 for an entitled member: the 'checkin' action's open-session guard and
      insert, then the audit-log row. `recorded` is false only when a check-in finds a session
      already open today, and then nothing is written. */
  method RecordValidation(db: Database, userId: int, checkin: bool, memberId: int, now: Instant)
    returns (recorded: bool, attendanceId: Option<int>)
    requires db.Valid()
    modifies db
    ensures db.Valid()
    ensures recorded <==> !(checkin && HasOpenSessionOn(old(db.attendance), memberId, DayOf(now)))
    ensures !recorded ==> db.Contents() == old(db.Contents())
    ensures recorded ==>
              var visit := AutoCheckIn(NextId(old(db.attendance), AttendanceKey), memberId, now);
              var log := ValidationLog(NextId(old(db.auditLogs), AuditLogKey), userId, checkin, memberId, now);
              && attendanceId == (if checkin then Some(visit.id) else None)
              && db.Contents() == old(db.Contents()).(
                   attendance := old(db.attendance) + (if checkin then [visit] else []),
                   auditLogs := old(db.auditLogs) + [log])
  {
    attendanceId := None;
    if checkin {
      if HasOpenSessionOn(db.attendance, memberId, DayOf(now)) {
        return false, None;
      }
      var visit := AutoCheckIn(NextId(db.attendance, AttendanceKey), memberId, now);
      db.AddVisit(visit);
      attendanceId := Some(visit.id);
    }
    db.AddAuditLog(ValidationLog(NextId(db.auditLogs, AuditLogKey), userId, checkin, memberId, now));
    recorded := true;
  }

  /** A request that passes the endpoint's header, session, method and id checks. */
  predicate Admitted(requestedWith: Option<string>, session: Session, isPost: bool, memberId: int)
    reads session
  {
    IsAjax(requestedWith) && session.userId.Some? && isPost && memberId > 0
  }

  /** The whole endpoint. `memberId` is the posted member_id after PHP's `(int)` cast (0 when
      absent) and `action` the posted action, if any. Only the exact action 'checkin' records a
      visit, and only when the member has no session open today. */
  method ValidateMembership(db: Database, session: Session, requestedWith: Option<string>, isPost: bool,
                            memberId: int, action: Option<string>, now: Instant) returns (resp: Response)
    requires db.Valid()
    modifies db
    ensures db.Valid()
    ensures !IsAjax(requestedWith) ==> resp == Forbidden
    ensures IsAjax(requestedWith) && session.userId.None? ==> resp == Unauthorized
    ensures IsAjax(requestedWith) && session.userId.Some? && !isPost ==> resp == MethodNotAllowed
    ensures IsAjax(requestedWith) && session.userId.Some? && isPost && memberId <= 0 ==>
              resp == Failed(InvalidMemberId, None, None)
    ensures Admitted(requestedWith, session, isPost, memberId) ==>
              var e := Resolve(old(db.Contents()), memberId, DayOf(now));
              var checkin := action.Some? && Trim(action.value) == "checkin";
              && (resp == Failed(NotFound, None, None) <==> e.MemberNotFound?)
              && (resp.Failed? && resp.failure == StatusNotActive <==> e.MemberNotActive?)
              && (resp.Failed? && resp.failure == NoActivePaidMembershipFound <==> e.NoActivePaidMembership?)
              && (resp.Failed? && resp.failure == AlreadyCheckedInToday <==>
                    e.Entitled? && checkin && HasOpenSessionOn(old(db.attendance), memberId, DayOf(now)))
              && (resp.Succeeded? <==>
                    e.Entitled? && !(checkin && HasOpenSessionOn(old(db.attendance), memberId, DayOf(now))))
    ensures !resp.Succeeded? ==> db.Contents() == old(db.Contents())
    ensures resp.Succeeded? ==>
              var e := Resolve(old(db.Contents()), memberId, DayOf(now));
              && memberId > 0 && session.userId.Some?
              && e.Entitled? && resp.member == e.member && resp.membership == e.membership
              && resp.daysLeft == e.daysLeft && resp.state == e.state
    ensures resp.Failed? && resp.failure == AlreadyCheckedInToday ==>
              Resolve(old(db.Contents()), memberId, DayOf(now)).Entitled?
              && HasOpenSessionOn(old(db.attendance), memberId, DayOf(now))
    ensures resp.Succeeded? ==>
              var checkin := action.Some? && Trim(action.value) == "checkin";
              var visit := AutoCheckIn(NextId(old(db.attendance), AttendanceKey), memberId, now);
              var log := ValidationLog(NextId(old(db.auditLogs), AuditLogKey), session.userId.value, checkin, memberId, now);
              && resp.checkedIn == checkin
              && resp.attendanceId == (if checkin then Some(visit.id) else None)
              && db.Contents() == old(db.Contents()).(
                   attendance := old(db.attendance) + (if checkin then [visit] else []),
                   auditLogs := old(db.auditLogs) + [log])
  {
    if !IsAjax(requestedWith) {
      return Forbidden;
    }
    if session.userId.None? {
      return Unauthorized;
    }
    if !isPost {
      return MethodNotAllowed;
    }
    var act := if action.Some? then Trim(action.value) else "check";
    if memberId <= 0 {
      return Failed(InvalidMemberId, None, None);
    }
    var today := DayOf(now);
    var t := db.Contents();
    var e := Resolve(t, memberId, today);
    if e.MemberNotFound? {
      return Failed(NotFound, None, None);
    } else if e.MemberNotActive? {
      return Failed(StatusNotActive, Some(FullName(e.member)), Some(e.member.status));
    } else if e.NoActivePaidMembership? {
      return Failed(NoActivePaidMembershipFound, Some(FullName(e.member)), Some(e.member.status));
    }
    var checkin := act == "checkin";
    var recorded, attendanceId := RecordValidation(db, session.userId.value, checkin, memberId, now);
    if !recorded {
      return Failed(AlreadyCheckedInToday, Some(FullName(e.member)), None);
    }
    resp := Succeeded(checkin, e.member, e.membership, e.daysLeft, e.state, attendanceId);
  }
}
