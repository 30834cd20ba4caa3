/** The shared helpers of `includes/functions.php`: the session's role predicates, the
    status-badge mapping, the CSRF token pair and `check_out_member`. */
module Functions {
  import opened Php
  import opened Calendar
  import opened Schema

  /** The values of `$_SESSION` the scripts read, and the CSRF token they write. */
  class Session {
    var userId: Option<int>
    var userRole: Option<string>
    var memberId: Option<int>
    var trainerId: Option<int>
    var userName: string
    var csrfToken: Option<string>

    constructor (userId: Option<int>, userRole: Option<string>, memberId: Option<int>,
                 trainerId: Option<int>, userName: string)
      ensures this.userId == userId && this.userRole == userRole && this.memberId == memberId
      ensures this.trainerId == trainerId && this.userName == userName && csrfToken == None
    {
      this.userId, this.userRole, this.memberId := userId, userRole, memberId;
      this.trainerId, this.userName, this.csrfToken := trainerId, userName, None;
    }

    /** `is_logged_in()`. */
    predicate IsLoggedIn()
      reads this
    {
      userId.Some?
    }

    /** `has_role($role)`: a role is set and it is exactly `role`. */
    predicate HasRole(role: string)
      reads this
    {
      userRole.Some? && userRole.value == role
    }

    predicate IsAdmin()
      reads this
    {
      HasRole("admin")
    }

    predicate IsTrainer()
      reads this
    {
      HasRole("trainer")
    }

    predicate IsMember()
      reads this
    {
      HasRole("member")
    }

    /** `is_staff()`: an admin or a trainer. */
    predicate IsStaff()
      reads this
    {
      IsAdmin() || IsTrainer()
    }

    /** `require_admin()` lets the request through: a user is logged in and has the admin role. */
    predicate AdminAllowed()
      reads this
    {
      IsLoggedIn() && IsAdmin()
    }

    /** `require_staff()` lets the request through: a user is logged in and is an admin or a
        trainer. */
    predicate StaffAllowed()
      reads this
    {
      IsLoggedIn() && IsStaff()
    }

    /** `get_member_id()` as a PHP truth value: a member id is set and is not 0. */
    function CurrentMemberId(): (id: Option<int>)
      reads this
      ensures id.Some? ==> id.value != 0 && memberId == id
      ensures id.None? <==> memberId.None? || memberId == Some(0)
    {
      if memberId.Some? && memberId.value != 0 then memberId else None
    }

    /** `verify_csrf_token($token)`: false when the session holds no token or the given token is
        empty in PHP's sense; otherwise whether the two are equal. */
    function VerifyCsrfToken(token: string): (ok: bool)
      reads this
      ensures IsEmpty(token) ==> !ok
      ensures csrfToken.None? ==> !ok
      ensures ok <==> csrfToken == Some(token) && !IsEmpty(token)
    {
      if csrfToken.None? || IsEmpty(token) then false else csrfToken.value == token
    }

    /** `generate_csrf_token()`: keeps a token that is already set (non-empty), otherwise stores
        the 64 hex digits of `bin2hex(random_bytes(32))`, passed in as `randomHex`. */
    method GenerateCsrfToken(randomHex: string) returns (token: string)
      requires |randomHex| == 64
      modifies this`csrfToken
      ensures csrfToken == Some(token) && !IsEmpty(token)
      ensures old(csrfToken).Some? && !IsEmpty(old(csrfToken).value) ==> csrfToken == old(csrfToken)
      ensures old(csrfToken).None? || IsEmpty(old(csrfToken).value) ==> token == randomHex
    {
      if csrfToken.None? || IsEmpty(csrfToken.value) {
        csrfToken := Some(randomHex);
      }
      token := csrfToken.value;
    }
  }

  /** The role predicates partition the known roles: staff are admins and trainers, and a
      member is never staff. */
  lemma RolePredicates(s: Session)
    ensures s.IsStaff() <==> s.userRole == Some("admin") || s.userRole == Some("trainer")
    ensures s.IsMember() ==> !s.IsStaff() && !s.IsAdmin() && !s.IsTrainer()
    ensures s.userRole.None? ==> !s.IsStaff() && !s.IsMember()
  {
  }

  /** Generating a token twice gives the same token: the second call finds it set. */
  method GenerateTwice(s: Session, first: string, second: string) returns (t1: string, t2: string)
    requires |first| == 64 && |second| == 64
    modifies s`csrfToken
    ensures t1 == t2 && s.VerifyCsrfToken(t1)
  {
    t1 := s.GenerateCsrfToken(first);
    t2 := s.GenerateCsrfToken(second);
  }

  /** The `switch` of `get_status_badge` on the already lower-cased status. */
  function BadgeOfLower(lower: string): string {
    if lower == "active" || lower == "paid" || lower == "completed" then "success"
    else if lower == "inactive" || lower == "pending" then "warning"
    else if lower == "suspended" || lower == "overdue" || lower == "failed" then "error"
    else "info"
  }

  /** `get_status_badge($status)`: the CSS class a status is shown with; total over strings. */
  function StatusBadge(status: string): (badge: string)
    ensures badge == "success" <==> ToLower(status) in {"active", "paid", "completed"}
    ensures badge == "warning" <==> ToLower(status) in {"inactive", "pending"}
    ensures badge == "error" <==> ToLower(status) in {"suspended", "overdue", "failed"}
    ensures badge == "info" <==> ToLower(status) !in {"active", "paid", "completed", "inactive",
                                                      "pending", "suspended", "overdue", "failed"}
  {
    BadgeOfLower(ToLower(status))
  }

  /** The badge ignores letter case. */
  lemma StatusBadgeIgnoresCase(status: string)
    ensures StatusBadge(ToLower(status)) == StatusBadge(status)
  {
    ToLowerIdempotent(status);
  }

  /** A capitalised word lower-cases to the word with its first letter lowered. */
  lemma ToLowerCapitalised(s: string)
    requires s != [] && 'A' <= s[0] <= 'Z'
    requires forall k :: 1 <= k < |s| ==> !('A' <= s[k] <= 'Z')
    ensures ToLower(s) == [(s[0] as int + 32) as char] + s[1..]
  {
    assert ToLower(s[1..]) == s[1..];
  }

  /** Every member status gets the badge its meaning calls for. */
  lemma MemberStatusBadge(m: MemberStatus)
    ensures StatusBadge(MemberStatusName(m)) == (match m
                                                 case Active => "success"
                                                 case Inactive => "warning"
                                                 case Suspended => "error")
  {
    ToLowerCapitalised(MemberStatusName(m));
  }

  /** Every membership payment status gets the badge its meaning calls for. */
  lemma PaymentStatusBadge(p: PaymentStatus)
    ensures StatusBadge(PaymentStatusName(p)) == (match p
                                                  case Paid => "success"
                                                  case Pending => "warning"
                                                  case Overdue => "error")
  {
    ToLowerCapitalised(PaymentStatusName(p));
  }

  /** MySQL's `TIMESTAMPDIFF(MINUTE, a, b)` on a difference of `seconds`: whole minutes,
      truncated toward zero. */
  function TruncatedMinutes(seconds: int): (m: int)
    ensures seconds >= 0 ==> 0 <= 60 * m <= seconds < 60 * m + 60
    ensures seconds < 0 ==> 60 * m - 60 < seconds <= 60 * m <= 0
  {
    if seconds >= 0 then seconds / 60 else -((-seconds) / 60)
  }

  /** The UPDATE of `check_out_member`: every session of the member checked in today and still
      open is closed now, with its length in truncated minutes. */
  function CloseOpenToday(rows: seq<Attendance>, memberId: int, now: Instant): (r: seq<Attendance>)
    ensures SameSessions(rows, r)
    ensures forall i :: 0 <= i < |rows| && !IsOpenOn(rows[i], memberId, DayOf(now)) ==> r[i] == rows[i]
    ensures forall i :: 0 <= i < |rows| && IsOpenOn(rows[i], memberId, DayOf(now)) ==>
              r[i] == Close(rows[i], now, TruncatedMinutes(now - rows[i].checkIn))
    ensures !HasOpenSessionOn(r, memberId, DayOf(now))
  {
    seq(|rows|, i requires 0 <= i < |rows| =>
      if IsOpenOn(rows[i], memberId, DayOf(now)) then Close(rows[i], now, TruncatedMinutes(now - rows[i].checkIn))
      else rows[i])
  }

  /** The number of rows the UPDATE of `check_out_member` touches (`rowCount()`). */
  function OpenTodayCount(rows: seq<Attendance>, memberId: int, today: Day): (n: nat)
    ensures n > 0 <==> HasOpenSessionOn(rows, memberId, today)
    ensures n <= |rows|
  {
    if rows == [] then 0
    else
      var rest := OpenTodayCount(rows[1..], memberId, today);
      assert HasOpenSessionOn(rows, memberId, today) <==>
             IsOpenOn(rows[0], memberId, today) || HasOpenSessionOn(rows[1..], memberId, today) by {
        if HasOpenSessionOn(rows[1..], memberId, today) {
          var i :| 0 <= i < |rows[1..]| && IsOpenOn(rows[1..][i], memberId, today);
          assert IsOpenOn(rows[i + 1], memberId, today);
        }
        if HasOpenSessionOn(rows, memberId, today) && !IsOpenOn(rows[0], memberId, today) {
          var i :| 0 <= i < |rows| && IsOpenOn(rows[i], memberId, today);
          assert IsOpenOn(rows[1..][i - 1], memberId, today);
        }
      }
      if IsOpenOn(rows[0], memberId, today) then rest + 1 else rest
  }

  /** `check_out_member($pdo, $member_id)`: closes the member's open sessions of today and
      reports whether any row changed; a database exception (`dbFails`) changes nothing and
      reports false. Open sessions of earlier days and other members' sessions are untouched. */
  method CheckOutMember(db: Database, memberId: int, now: Instant, dbFails: bool) returns (changed: bool)
    requires db.Valid()
    modifies db
    ensures db.Valid()
    ensures dbFails ==> !changed && db.Contents() == old(db.Contents())
    ensures !dbFails ==> db.Contents() == old(db.Contents()).(attendance := CloseOpenToday(old(db.attendance), memberId, now))
    ensures changed <==> !dbFails && HasOpenSessionOn(old(db.attendance), memberId, DayOf(now))
  {
    if dbFails {
      return false;
    }
    var rowCount := OpenTodayCount(db.attendance, memberId, DayOf(now));
    var closed := CloseOpenToday(db.attendance, memberId, now);
    SameSessionsKeepInvariants(db.attendance, closed);
    db.attendance := closed;
    changed := rowCount > 0;
  }
}
