/** `public/memberships/renew.php`: an admin extends a membership by a number of months. The
    renewal starts at the current expiry when that is still ahead, so unused days are kept,
    and otherwise today; the same row is overwritten and marked Paid. */
module Renewal {
  import opened Php
  import opened Calendar
  import opened Schema
  import opened Functions

  /** The new start and expiry days of a renewal by `months` at time `now` of a membership
      expiring on `expiry`: the base is the expiry's midnight when that is later than now,
      otherwise now, and the new expiry is the base moved on by `months` months. */
  function RenewalDates(expiry: Day, now: Instant, months: nat): (r: (Day, Day))
    ensures r.0 == if expiry > DayOf(now) then expiry else DayOf(now)
    ensures r.1 == AddMonths(r.0, months)
  {
    var base := if StartOfDay(expiry) > now then StartOfDay(expiry) else now;
    var start := DayOf(base);
    (start, AddMonths(start, months))
  }

  /** A renewal never starts before today or before the current expiry, and for at least one
      month it ends strictly later than it starts, by at least 28 days a month; so a renewal
      before expiry keeps every unused day. */
  lemma RenewalExtends(expiry: Day, now: Instant, months: nat)
    requires months >= 1
    ensures RenewalDates(expiry, now, months).0 >= expiry
    ensures RenewalDates(expiry, now, months).0 >= DayOf(now)
    ensures RenewalDates(expiry, now, months).1 > RenewalDates(expiry, now, months).0
    ensures RenewalDates(expiry, now, months).1 >= expiry + 28 * months
  {
    var (start, _) := RenewalDates(expiry, now, months);
    AddMonthsGrowth(start, months);
  }

  /** Renewing for more months gives a strictly later expiry. */
  lemma LongerRenewalLaterExpiry(expiry: Day, now: Instant, m: nat, n: nat)
    requires m < n
    ensures RenewalDates(expiry, now, m).1 < RenewalDates(expiry, now, n).1
  {
    AddMonthsStrictlyIncreasing(RenewalDates(expiry, now, m).0, m, n);
  }

  /** The membership row after the renewal's UPDATE. */
  function Renewed(m: Membership, start: Day, expiry: Day, paymentMethod: string, at: Instant): (r: Membership)
    ensures r.id == m.id && r.memberId == m.memberId && r.planName == m.planName
    ensures r.planType == m.planType && r.price == m.price
    ensures r.startDate == start && r.expiryDate == expiry && r.paymentStatus == Paid
    ensures r.paymentMethod == paymentMethod && r.createdAt == at
  {
    m.(startDate := start, expiryDate := expiry, paymentStatus := Paid, paymentMethod := paymentMethod,
       createdAt := at)
  }

  /** `UPDATE memberships SET ... WHERE id = ?`. */
  function RenewById(rows: seq<Membership>, id: int, start: Day, expiry: Day, paymentMethod: string,
                     at: Instant): (r: seq<Membership>)
    ensures |r| == |rows|
    ensures forall i :: 0 <= i < |rows| && rows[i].id != id ==> r[i] == rows[i]
    ensures forall i :: 0 <= i < |rows| && rows[i].id == id ==> r[i] == Renewed(rows[i], start, expiry, paymentMethod, at)
  {
    seq(|rows|, i requires 0 <= i < |rows| =>
      if rows[i].id == id then Renewed(rows[i], start, expiry, paymentMethod, at) else rows[i])
  }

  /** The membership the page loads: the row with that id, provided its member exists (the
      query joins `members`). */
  function MembershipOf(t: Tables, id: int): (r: Option<Membership>)
    ensures r.Some? ==> r == FindBy(t.memberships, MembershipKey, id)
    ensures r.Some? ==> FindBy(t.members, MemberKey, r.value.memberId).Some?
    ensures r.None? ==> FindBy(t.memberships, MembershipKey, id).None?
                        || FindBy(t.members, MemberKey, FindBy(t.memberships, MembershipKey, id).value.memberId).None?
  {
    var m := FindBy(t.memberships, MembershipKey, id);
    if m.Some? && FindBy(t.members, MemberKey, m.value.memberId).Some? then m else None
  }

  datatype Outcome =
    | AccessDenied      // `require_admin()`
    | InvalidId
    | NotFound
    | FormShown         // a GET request shows the renewal form
    | RenewFailed       // the UPDATE threw
    | RenewedUntil(start: Day, expiry: Day)

  /** The whole page. `id` is `(int)$_GET['id']` (0 when absent), `months` the posted duration
      (1 when absent), `paymentMethod` the posted method ('Cash' when absent, trimmed). */
  method Renew(db: Database, session: Session, id: int, isPost: bool, months: Option<nat>,
               paymentMethod: Option<string>, now: Instant, dbFails: bool) returns (out: Outcome)
    requires db.Valid()
    modifies db
    ensures db.Valid()
    ensures !session.AdminAllowed() ==> out == AccessDenied
    ensures session.AdminAllowed() && id == 0 ==> out == InvalidId
    ensures out == NotFound <==> session.AdminAllowed() && id != 0 && MembershipOf(old(db.Contents()), id).None?
    ensures out == FormShown <==> session.AdminAllowed() && id != 0 && MembershipOf(old(db.Contents()), id).Some? && !isPost
    ensures out == RenewFailed <==>
              session.AdminAllowed() && id != 0 && MembershipOf(old(db.Contents()), id).Some? && isPost && dbFails
    ensures out.RenewedUntil? <==>
              session.AdminAllowed() && id != 0 && MembershipOf(old(db.Contents()), id).Some? && isPost && !dbFails
    ensures !out.RenewedUntil? ==> db.Contents() == old(db.Contents())
    ensures out.RenewedUntil? ==>
              && isPost && !dbFails && MembershipOf(old(db.Contents()), id).Some?
              && (out.start, out.expiry) == RenewalDates(MembershipOf(old(db.Contents()), id).value.expiryDate, now,
                                                         if months.Some? then months.value else 1)
              && db.Contents() == old(db.Contents()).(memberships := RenewById(old(db.memberships), id, out.start, out.expiry,
                                                        if paymentMethod.Some? then Trim(paymentMethod.value) else "Cash", now))
  {
    if !session.AdminAllowed() {
      return AccessDenied;
    }
    if id == 0 {
      return InvalidId;
    }
    var membership := MembershipOf(db.Contents(), id);
    if membership.None? {
      return NotFound;
    }
    if !isPost {
      return FormShown;
    }
    var duration := if months.Some? then months.value else 1;
    var paidWith := if paymentMethod.Some? then Trim(paymentMethod.value) else "Cash";
    var (start, expiry) := RenewalDates(membership.value.expiryDate, now, duration);
    if dbFails {
      return RenewFailed;
    }
    var t := db.Contents();
    var renewed := RenewById(db.memberships, id, start, expiry, paidWith, now);
    RenewalKeepsRows(db.memberships, id, start, expiry, paidWith, now);
    db.memberships := renewed;
    assert db.Contents() == t.(memberships := renewed);
    out := RenewedUntil(start, expiry);
  }

  /** Renewal overwrites the row it loaded: no membership row is added or removed, the row
      keeps its member, plan and price, and every other row is left as it was. */
  lemma RenewalKeepsRows(rows: seq<Membership>, id: int, start: Day, expiry: Day, paymentMethod: string, at: Instant)
    requires DistinctBy(rows, MembershipKey)
    ensures |RenewById(rows, id, start, expiry, paymentMethod, at)| == |rows|
    ensures DistinctBy(RenewById(rows, id, start, expiry, paymentMethod, at), MembershipKey)
    ensures forall i :: 0 <= i < |rows| ==>
              var r := RenewById(rows, id, start, expiry, paymentMethod, at)[i];
              r.id == rows[i].id && r.memberId == rows[i].memberId && r.planName == rows[i].planName
              && r.planType == rows[i].planType && r.price == rows[i].price
  {
    var r := RenewById(rows, id, start, expiry, paymentMethod, at);
    assert forall i :: 0 <= i < |r| ==> r[i].id == rows[i].id;
  }
}
