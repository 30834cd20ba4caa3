/** The gym database: one record type per table, the whole database as a `Tables` value, the
    consistency the page scripts keep, and the `Database` object whose table fields they update
    in place. Ids are assigned as one more than the largest id in the table. */
module Schema {
  import opened Php
  import opened Calendar

  datatype MemberStatus = Active | Inactive | Suspended

  function MemberStatusName(s: MemberStatus): string {
    match s
    case Active => "Active"
    case Inactive => "Inactive"
    case Suspended => "Suspended"
  }

  datatype PaymentStatus = Paid | Pending | Overdue

  function PaymentStatusName(s: PaymentStatus): string {
    match s
    case Paid => "Paid"
    case Pending => "Pending"
    case Overdue => "Overdue"
  }

  /** The statuses the code writes into `member_workouts.status`. */
  datatype AssignmentStatus = Active | Completed

  function AssignmentStatusName(s: AssignmentStatus): string {
    match s
    case Active => "Active"
    case Completed => "Completed"
  }

  datatype Member = Member(
    id: int, userId: Option<int>, firstName: string, lastName: string, email: string,
    phone: Option<string>, dateOfBirth: Option<string>, gender: Option<string>,
    joinDate: Day, status: MemberStatus)

  datatype Membership = Membership(
    id: int, memberId: int, planName: string, planType: string, price: int,
    startDate: Day, expiryDate: Day, paymentStatus: PaymentStatus, paymentMethod: string,
    createdAt: Instant)

  /** One gym visit; `checkOut == None` while it is open. */
  datatype Attendance = Attendance(
    id: int, memberId: int, trainerId: Option<int>, checkIn: Instant,
    checkOut: Option<Instant>, durationMinutes: Option<int>, workoutType: string, notes: string)

  /** A row of `member_workouts`: a member following a workout plan. */
  datatype Assignment = Assignment(
    id: int, memberId: int, planId: int, assignedBy: int, startDate: Instant,
    endDate: Option<Instant>, status: AssignmentStatus)

  datatype WorkoutPlan = WorkoutPlan(
    id: int, planName: string, description: string, difficultyLevel: string,
    durationWeeks: int, targetArea: string, equipmentNeeded: string,
    createdBy: Option<int>, isActive: bool)

  /** The user-supplied part of a `workout_exercises` row. */
  datatype ExerciseData = ExerciseData(
    name: string, sets: int, reps: string, restSeconds: int, instructions: string,
    muscleGroup: string, dayNumber: int)

  datatype Exercise = Exercise(id: int, planId: int, data: ExerciseData)

  datatype Payment = Payment(
    id: int, membershipId: int, amount: string, paymentDate: Day, paymentMethod: string,
    status: string, transactionId: string, notes: string, processedBy: int)

  datatype Trainer = Trainer(id: int, userId: Option<int>, fullName: string)

  datatype User = User(
    id: int, username: string, email: string, passwordHash: string, role: string, status: string)

  datatype Notification = Notification(id: int, userId: int, message: string)

  datatype AuditLog = AuditLog(
    id: int, userId: int, action: string, tableName: string, recordId: int, createdAt: Instant)

  datatype Tables = Tables(
    members: seq<Member>, memberships: seq<Membership>, attendance: seq<Attendance>,
    assignments: seq<Assignment>, plans: seq<WorkoutPlan>, exercises: seq<Exercise>,
    payments: seq<Payment>, trainers: seq<Trainer>, users: seq<User>,
    notifications: seq<Notification>, auditLogs: seq<AuditLog>)

  // ---------------------------------------------------------------- ids

  predicate DistinctBy<R>(rows: seq<R>, key: R -> int) {
    forall i, j :: 0 <= i < j < |rows| ==> key(rows[i]) != key(rows[j])
  }

  /** The id an auto-increment insert gives the next row: above every id in the table. */
  function NextId<R>(rows: seq<R>, key: R -> int): (r: int)
    ensures r >= 1
    ensures forall i :: 0 <= i < |rows| ==> key(rows[i]) < r
  {
    if rows == [] then 1
    else
      var before := NextId(rows[..|rows| - 1], key);
      var last := key(rows[|rows| - 1]) + 1;
      if before < last then last else before
  }

  lemma AppendFresh<R>(rows: seq<R>, key: R -> int, r: R)
    requires DistinctBy(rows, key) && key(r) == NextId(rows, key)
    ensures DistinctBy(rows + [r], key)
  {
  }

  /** The first row with the given id, as `SELECT ... WHERE id = ?` followed by one fetch(). */
  function FindBy<R>(rows: seq<R>, key: R -> int, id: int): (r: Option<R>)
    ensures r.Some? ==> r.value in rows && key(r.value) == id
    ensures r.None? <==> forall i :: 0 <= i < |rows| ==> key(rows[i]) != id
  {
    if rows == [] then None
    else if key(rows[0]) == id then Some(rows[0])
    else FindBy(rows[1..], key, id)
  }

  /** `DELETE FROM t WHERE id = ?`. */
  function RemoveBy<R>(rows: seq<R>, key: R -> int, id: int): (r: seq<R>)
    ensures forall i :: 0 <= i < |r| ==> key(r[i]) != id
    ensures forall i :: 0 <= i < |r| ==> r[i] in rows
    ensures forall i :: 0 <= i < |rows| && key(rows[i]) != id ==> rows[i] in r
    ensures DistinctBy(rows, key) ==> DistinctBy(r, key)
  {
    if rows == [] then []
    else
      var rest := RemoveBy(rows[1..], key, id);
      if key(rows[0]) == id then rest else [rows[0]] + rest
  }

  function MemberKey(m: Member): int { m.id }
  function MembershipKey(m: Membership): int { m.id }
  function AttendanceKey(a: Attendance): int { a.id }
  function AssignmentKey(a: Assignment): int { a.id }
  function PlanKey(p: WorkoutPlan): int { p.id }
  function ExerciseKey(e: Exercise): int { e.id }
  function PaymentKey(p: Payment): int { p.id }
  function TrainerKey(t: Trainer): int { t.id }
  function UserKey(u: User): int { u.id }
  function NotificationKey(n: Notification): int { n.id }
  function AuditLogKey(l: AuditLog): int { l.id }

  // ---------------------------------------------------------------- sessions and assignments

  /** Some session of the member, checked in on `today`, is still open
      (`DATE(check_in) = CURDATE() AND check_out IS NULL`). */
  predicate HasOpenSessionOn(rows: seq<Attendance>, memberId: int, today: Day) {
    exists i :: 0 <= i < |rows| && IsOpenOn(rows[i], memberId, today)
  }

  predicate IsOpenOn(a: Attendance, memberId: int, day: Day) {
    a.memberId == memberId && a.checkOut.None? && DayOf(a.checkIn) == day
  }

  /** The session closed at `at`, with its length in whole minutes. */
  function Close(a: Attendance, at: Instant, minutes: int): (c: Attendance)
    ensures c.checkOut == Some(at) && c.durationMinutes == Some(minutes)
    ensures c.(checkOut := a.checkOut, durationMinutes := a.durationMinutes) == a
  {
    a.(checkOut := Some(at), durationMinutes := Some(minutes))
  }

  /** `r` is `rows` with some fields changed row by row, but with every row keeping its id, its
      member and its check-in time, and no closed session reopened. */
  predicate SameSessions(rows: seq<Attendance>, r: seq<Attendance>) {
    && |r| == |rows|
    && forall i :: 0 <= i < |rows| ==>
         && r[i].id == rows[i].id && r[i].memberId == rows[i].memberId && r[i].checkIn == rows[i].checkIn
         && (r[i].checkOut.None? ==> rows[i].checkOut.None?)
  }

  /** Closing sessions or editing other fields in place keeps ids distinct and never creates a
      second open session for a member's day. */
  lemma SameSessionsKeepInvariants(rows: seq<Attendance>, r: seq<Attendance>)
    requires SameSessions(rows, r)
    requires DistinctBy(rows, AttendanceKey) && AtMostOneOpenPerDay(rows)
    ensures DistinctBy(r, AttendanceKey) && AtMostOneOpenPerDay(r)
  {
    forall i, j | 0 <= i < j < |r|
      ensures AttendanceKey(r[i]) != AttendanceKey(r[j])
    {
      assert AttendanceKey(rows[i]) != AttendanceKey(rows[j]);
    }
  }

  /** At most one open session per member per calendar day. */
  predicate AtMostOneOpenPerDay(rows: seq<Attendance>) {
    forall i, j ::
      0 <= i < j < |rows| && rows[i].memberId == rows[j].memberId && rows[i].checkOut.None? && rows[j].checkOut.None?
      ==> DayOf(rows[i].checkIn) != DayOf(rows[j].checkIn)
  }

  /** The check-in guard at work: a new session opened on a day for which the member has no
      open session keeps "at most one open session per member per day", and a fresh id keeps
      the ids distinct. */
  lemma {:induction false} OpenGuardKeepsInvariant(rows: seq<Attendance>, v: Attendance)
    requires DistinctBy(rows, AttendanceKey) && AtMostOneOpenPerDay(rows)
    requires v.id == NextId(rows, AttendanceKey)
    requires !HasOpenSessionOn(rows, v.memberId, DayOf(v.checkIn))
    ensures DistinctBy(rows + [v], AttendanceKey) && AtMostOneOpenPerDay(rows + [v])
  {
    var r := rows + [v];
    forall i, j | 0 <= i < j < |r| && r[i].memberId == r[j].memberId && r[i].checkOut.None? && r[j].checkOut.None?
      ensures DayOf(r[i].checkIn) != DayOf(r[j].checkIn)
    {
      if j == |rows| {
        assert !IsOpenOn(rows[i], v.memberId, DayOf(v.checkIn));
      }
    }
    AppendFresh(rows, AttendanceKey, v);
  }

  predicate IsActiveAssignment(a: Assignment, memberId: int, planId: int) {
    a.memberId == memberId && a.planId == planId && a.status.Active?
  }

  predicate HasActiveAssignment(rows: seq<Assignment>, memberId: int, planId: int) {
    exists i :: 0 <= i < |rows| && IsActiveAssignment(rows[i], memberId, planId)
  }

  /** At most one Active assignment per (member, plan). */
  predicate AtMostOneActivePerPlan(rows: seq<Assignment>) {
    forall i, j ::
      0 <= i < j < |rows| && rows[i].status.Active? && rows[j].status.Active?
      ==> rows[i].memberId != rows[j].memberId || rows[i].planId != rows[j].planId
  }

  /** The start-plan guard at work: a new assignment for a (member, plan) pair that has no
      Active assignment keeps "at most one Active assignment per pair", and a fresh id keeps the
      ids distinct. */
  lemma {:induction false} ActiveGuardKeepsInvariant(rows: seq<Assignment>, a: Assignment)
    requires DistinctBy(rows, AssignmentKey) && AtMostOneActivePerPlan(rows)
    requires a.id == NextId(rows, AssignmentKey)
    requires !HasActiveAssignment(rows, a.memberId, a.planId)
    ensures DistinctBy(rows + [a], AssignmentKey) && AtMostOneActivePerPlan(rows + [a])
  {
    var r := rows + [a];
    forall i, j | 0 <= i < j < |r| && r[i].status.Active? && r[j].status.Active?
      ensures r[i].memberId != r[j].memberId || r[i].planId != r[j].planId
    {
      if j == |rows| {
        assert !IsActiveAssignment(rows[i], a.memberId, a.planId);
      }
    }
    AppendFresh(rows, AssignmentKey, a);
  }

  /** What every page script keeps true of the database when run one request at a time. */
  predicate Consistent(t: Tables) {
    && DistinctBy(t.members, MemberKey)
    && DistinctBy(t.memberships, MembershipKey)
    && DistinctBy(t.attendance, AttendanceKey)
    && DistinctBy(t.assignments, AssignmentKey)
    && DistinctBy(t.plans, PlanKey)
    && DistinctBy(t.trainers, TrainerKey)
    && DistinctBy(t.users, UserKey)
    && AtMostOneOpenPerDay(t.attendance)
    && AtMostOneActivePerPlan(t.assignments)
  }

  /** The MySQL database the scripts share; each table is a field the scripts update in place. */
  class Database {
    var members: seq<Member>
    var memberships: seq<Membership>
    var attendance: seq<Attendance>
    var assignments: seq<Assignment>
    var plans: seq<WorkoutPlan>
    var exercises: seq<Exercise>
    var payments: seq<Payment>
    var trainers: seq<Trainer>
    var users: seq<User>
    var notifications: seq<Notification>
    var auditLogs: seq<AuditLog>

    constructor ()
      ensures Valid()
      ensures Contents() == Tables([], [], [], [], [], [], [], [], [], [], [])
    {
      members, memberships, attendance, assignments := [], [], [], [];
      plans, exercises, payments, trainers := [], [], [], [];
      users, notifications, auditLogs := [], [], [];
    }

    function Contents(): Tables
      reads this
    {
      Tables(members, memberships, attendance, assignments, plans, exercises,
             payments, trainers, users, notifications, auditLogs)
    }

    predicate Valid()
      reads this
    {
      Consistent(Contents())
    }

    /** `INSERT INTO attendance`, behind the open-session guard both check-in paths run. */
    method AddVisit(v: Attendance)
      requires Valid()
      requires v.id == NextId(attendance, AttendanceKey)
      requires !HasOpenSessionOn(attendance, v.memberId, DayOf(v.checkIn))
      modifies this
      ensures Valid()
      ensures Contents() == old(Contents()).(attendance := old(attendance) + [v])
    {
      OpenGuardKeepsInvariant(attendance, v);
      attendance := attendance + [v];
    }

    /** `INSERT INTO member_workouts`, behind the start-plan guard. */
    method AddAssignment(a: Assignment)
      requires Valid()
      requires a.id == NextId(assignments, AssignmentKey)
      requires !HasActiveAssignment(assignments, a.memberId, a.planId)
      modifies this
      ensures Valid()
      ensures Contents() == old(Contents()).(assignments := old(assignments) + [a])
    {
      ActiveGuardKeepsInvariant(assignments, a);
      assignments := assignments + [a];
    }

    /** `INSERT INTO notifications` (`create_notification`). */
    method AddNotification(n: Notification)
      requires Valid()
      modifies this
      ensures Valid()
      ensures Contents() == old(Contents()).(notifications := old(notifications) + [n])
    {
      notifications := notifications + [n];
    }

    /** `INSERT INTO audit_logs`. */
    method AddAuditLog(l: AuditLog)
      requires Valid()
      modifies this
      ensures Valid()
      ensures Contents() == old(Contents()).(auditLogs := old(auditLogs) + [l])
    {
      auditLogs := auditLogs + [l];
    }
  }
}
