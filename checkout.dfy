/** `public/attendance/checkout.php`: staff close one attendance record, chosen by id, and
    store its length in minutes rounded to the nearest minute. */
module CheckOut {
  import opened Php
  import opened Calendar
  import opened Schema
  import opened Functions

  /** PHP's `round($seconds / 60)`: the nearest whole minute, halves rounded away from zero. */
  function RoundedMinutes(seconds: int): (m: int)
    ensures seconds >= 0 ==> 60 * m - 30 <= seconds < 60 * m + 30
    ensures seconds < 0 ==> 60 * m - 30 < seconds <= 60 * m + 30
  {
    if seconds >= 0 then (seconds + 30) / 60 else -((-seconds + 30) / 60)
  }

  /** The two check-outs disagree by at most a minute on a non-negative stay: the page rounds,
      `check_out_member` truncates, and the page gives one minute more exactly when at least
      half a minute is left over. */
  lemma RoundingVersusTruncation(seconds: int)
    requires seconds >= 0
    ensures RoundedMinutes(seconds) - TruncatedMinutes(seconds) in {0, 1}
    ensures RoundedMinutes(seconds) == TruncatedMinutes(seconds) + 1 <==> seconds % 60 >= 30
  {
  }

  /** `UPDATE attendance SET check_out = ?, duration_minutes = ? WHERE id = ?`. */
  function CloseById(rows: seq<Attendance>, id: int, at: Instant, minutes: int): (r: seq<Attendance>)
    ensures SameSessions(rows, r)
    ensures forall i :: 0 <= i < |rows| && rows[i].id != id ==> r[i] == rows[i]
    ensures forall i :: 0 <= i < |rows| && rows[i].id == id ==> r[i] == Close(rows[i], at, minutes)
  {
    seq(|rows|, i requires 0 <= i < |rows| => if rows[i].id == id then Close(rows[i], at, minutes) else rows[i])
  }

  datatype Outcome =
    | AccessDenied          // `require_staff()`: not logged in, or neither admin nor trainer
    | InvalidId
    | RecordNotFound
    | AlreadyCheckedOut
    | UpdateFailed          // the UPDATE failed or threw
    | CheckedOut(minutes: int)

  /** The record the page's query finds: the attendance row with that id, provided its member
      exists (the query joins `members`). */
  function RecordOf(t: Tables, id: int): (r: Option<Attendance>)
    ensures r.Some? ==> r == FindBy(t.attendance, AttendanceKey, id)
    ensures r.Some? ==> FindBy(t.members, MemberKey, r.value.memberId).Some?
    ensures r.None? ==> FindBy(t.attendance, AttendanceKey, id).None?
                        || FindBy(t.members, MemberKey, FindBy(t.attendance, AttendanceKey, id).value.memberId).None?
  {
    var a := FindBy(t.attendance, AttendanceKey, id);
    if a.Some? && FindBy(t.members, MemberKey, a.value.memberId).Some? then a else None
  }

  /** The whole page. `id` is `(int)$_GET['id']`, 0 when absent; `dbFails` stands for an UPDATE
      that fails or throws, which the page reports and which changes nothing. */
  method CheckOutRecord(db: Database, session: Session, id: int, now: Instant, dbFails: bool)
    returns (out: Outcome)
    requires db.Valid()
    modifies db
    ensures db.Valid()
    ensures !session.StaffAllowed() ==> out == AccessDenied
    ensures session.StaffAllowed() && id == 0 ==> out == InvalidId
    ensures out == RecordNotFound <==> session.StaffAllowed() && id != 0 && RecordOf(old(db.Contents()), id).None?
    ensures out == AlreadyCheckedOut <==>
              session.StaffAllowed() && id != 0 && RecordOf(old(db.Contents()), id).Some?
              && RecordOf(old(db.Contents()), id).value.checkOut.Some?
    ensures out == UpdateFailed <==>
              session.StaffAllowed() && id != 0 && RecordOf(old(db.Contents()), id).Some?
              && RecordOf(old(db.Contents()), id).value.checkOut.None? && dbFails
    ensures out.CheckedOut? <==>
              session.StaffAllowed() && id != 0 && RecordOf(old(db.Contents()), id).Some?
              && RecordOf(old(db.Contents()), id).value.checkOut.None? && !dbFails
    ensures !out.CheckedOut? ==> db.Contents() == old(db.Contents())
    ensures out.CheckedOut? ==>
              && !dbFails && RecordOf(old(db.Contents()), id).Some?
              && RecordOf(old(db.Contents()), id).value.checkOut.None?
              && out.minutes == RoundedMinutes(now - RecordOf(old(db.Contents()), id).value.checkIn)
              && db.Contents() == old(db.Contents()).(attendance := CloseById(old(db.attendance), id, now, out.minutes))
  {
    if !session.StaffAllowed() {
      return AccessDenied;
    }
    if id == 0 {
      return InvalidId;
    }
    var record := RecordOf(db.Contents(), id);
    if record.None? {
      return RecordNotFound;
    }
    if record.value.checkOut.Some? {
      return AlreadyCheckedOut;
    }
    if dbFails {
      return UpdateFailed;
    }
    var minutes := RoundedMinutes(now - record.value.checkIn);
    var t := db.Contents();
    var closed := CloseById(db.attendance, id, now, minutes);
    SameSessionsKeepInvariants(db.attendance, closed);
    db.attendance := closed;
    assert db.Contents() == t.(attendance := closed);
    out := CheckedOut(minutes);
  }

  /** After a successful check-out the row with that id is closed, so the same request made
      again is refused and leaves the stored duration alone. */
  lemma {:induction false} ClosedRecordStaysClosed(t: Tables, id: int, now: Instant, minutes: int)
    requires DistinctBy(t.attendance, AttendanceKey)
    requires RecordOf(t, id).Some?
    ensures RecordOf(t.(attendance := CloseById(t.attendance, id, now, minutes)), id).Some?
    ensures RecordOf(t.(attendance := CloseById(t.attendance, id, now, minutes)), id).value.checkOut == Some(now)
    ensures RecordOf(t.(attendance := CloseById(t.attendance, id, now, minutes)), id).value.durationMinutes == Some(minutes)
  {
    var rows := t.attendance;
    var closed := CloseById(rows, id, now, minutes);
    var a := RecordOf(t, id).value;
    var i :| 0 <= i < |rows| && rows[i] == a;
    assert closed[i] == Close(a, now, minutes);
    assert FindBy(closed, AttendanceKey, id).Some?;
    var b := FindBy(closed, AttendanceKey, id).value;
    var j :| 0 <= j < |closed| && closed[j] == b;
    assert rows[j].id == id;
    assert i == j;
    assert b == Close(a, now, minutes);
  }

  /** Checking out the same record twice: the second request is refused and changes nothing. */
  method CheckOutTwice(db: Database, session: Session, id: int, first: Instant, second: Instant)
    returns (o1: Outcome, o2: Outcome)
    requires db.Valid()
    modifies db
    ensures o1.CheckedOut? ==> o2 == AlreadyCheckedOut
    ensures o1.CheckedOut? ==> db.attendance == CloseById(old(db.attendance), id, first, o1.minutes)
  {
    o1 := CheckOutRecord(db, session, id, first, false);
    if o1.CheckedOut? {
      ClosedRecordStaysClosed(old(db.Contents()), id, first, o1.minutes);
    }
    o2 := CheckOutRecord(db, session, id, second, false);
  }
}
