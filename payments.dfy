/** `public/payments/add.php`: an admin records a payment against a membership. The payment row
    and, for a Completed payment, the membership's switch to Paid are written in one
    transaction. */
module Payments {
  import opened Php
  import opened Calendar
  import opened Schema
  import opened Functions

  /** The posted form after the page's sanitising: `(int)` of the membership id, trimmed text,
      and the defaults 'Cash', 'Completed' and today when absent (the status is not trimmed). */
  datatype PaymentForm = PaymentForm(
    membershipId: int, amount: string, paymentDate: Day, paymentMethod: string, status: string,
    transactionId: string, notes: string)

  function FormOf(membershipId: Option<int>, amount: Option<string>, paymentDate: Option<Day>,
                  paymentMethod: Option<string>, status: Option<string>, transactionId: Option<string>,
                  notes: Option<string>, today: Day): (f: PaymentForm)
    ensures f.membershipId == (if membershipId.Some? then membershipId.value else 0)
    ensures f.status == (if status.Some? then status.value else "Completed")
    ensures f.paymentMethod == (if paymentMethod.Some? then Trim(paymentMethod.value) else "Cash")
    ensures f.paymentDate == (if paymentDate.Some? then paymentDate.value else today)
    ensures f.amount == (if amount.Some? then Trim(amount.value) else "")
    ensures f.transactionId == (if transactionId.Some? then Trim(transactionId.value) else "")
    ensures f.notes == (if notes.Some? then Trim(notes.value) else "")
  {
    PaymentForm(if membershipId.Some? then membershipId.value else 0,
                if amount.Some? then Trim(amount.value) else "",
                if paymentDate.Some? then paymentDate.value else today,
                if paymentMethod.Some? then Trim(paymentMethod.value) else "Cash",
                if status.Some? then status.value else "Completed",
                if transactionId.Some? then Trim(transactionId.value) else "",
                if notes.Some? then Trim(notes.value) else "")
  }

  datatype PaymentError = MembershipRequired | AmountRequired | RecordFailed

  /** The two checks; both are made. An amount of "0" counts as missing, as `empty()` has it. */
  function FormErrors(f: PaymentForm): (errors: seq<PaymentError>)
    ensures MembershipRequired in errors <==> f.membershipId == 0
    ensures AmountRequired in errors <==> IsEmpty(f.amount)
    ensures errors == [] <==> f.membershipId != 0 && !IsEmpty(f.amount)
  {
    (if f.membershipId == 0 then [MembershipRequired] else [])
    + (if IsEmpty(f.amount) then [AmountRequired] else [])
  }

  /** `UPDATE memberships SET payment_status = 'Paid' WHERE id = ?`. */
  function MarkPaid(rows: seq<Membership>, id: int): (r: seq<Membership>)
    ensures |r| == |rows|
    ensures forall i :: 0 <= i < |rows| && rows[i].id != id ==> r[i] == rows[i]
    ensures forall i :: 0 <= i < |rows| && rows[i].id == id ==> r[i] == rows[i].(paymentStatus := Paid)
  {
    seq(|rows|, i requires 0 <= i < |rows| => if rows[i].id == id then rows[i].(paymentStatus := Paid) else rows[i])
  }

  /** Recording a payment never downgrades a membership: every row keeps its id and either
      keeps its payment status or becomes Paid. */
  lemma MarkPaidNeverDowngrades(rows: seq<Membership>, id: int)
    requires DistinctBy(rows, MembershipKey)
    ensures DistinctBy(MarkPaid(rows, id), MembershipKey)
    ensures forall i :: 0 <= i < |rows| ==>
              MarkPaid(rows, id)[i].paymentStatus == rows[i].paymentStatus || MarkPaid(rows, id)[i].paymentStatus == Paid
  {
    var r := MarkPaid(rows, id);
    forall i, j | 0 <= i < j < |r|
      ensures MembershipKey(r[i]) != MembershipKey(r[j])
    {
      assert MembershipKey(rows[i]) != MembershipKey(rows[j]);
    }
  }

  /** The payment row the INSERT writes: the sanitised form, processed by the current user. */
  function PaymentOf(id: int, f: PaymentForm, processedBy: int): (p: Payment)
    ensures p.id == id && p.membershipId == f.membershipId && p.processedBy == processedBy
    ensures p.amount == f.amount && p.paymentDate == f.paymentDate && p.paymentMethod == f.paymentMethod
    ensures p.status == f.status && p.transactionId == f.transactionId && p.notes == f.notes
  {
    Payment(id, f.membershipId, f.amount, f.paymentDate, f.paymentMethod, f.status, f.transactionId, f.notes,
            processedBy)
  }

  datatype Outcome =
    | AccessDenied        // `require_admin()`
    | FormShown           // a GET request
    | CsrfRejected        // the page dies before reading the form
    | Rejected(errors: seq<PaymentError>)
    | Recorded(paymentId: int)

  /** The whole page; `dbFails` is an exception inside the transaction, which rolls it back. */
  method AddPayment(db: Database, session: Session, isPost: bool, csrfToken: string, f: PaymentForm,
                    dbFails: bool) returns (out: Outcome)
    requires db.Valid()
    modifies db
    ensures db.Valid()
    ensures !session.AdminAllowed() ==> out == AccessDenied
    ensures out == FormShown <==> session.AdminAllowed() && !isPost
    ensures out == CsrfRejected <==> session.AdminAllowed() && isPost && !session.VerifyCsrfToken(csrfToken)
    ensures session.AdminAllowed() && isPost && session.VerifyCsrfToken(csrfToken) ==>
              && (FormErrors(f) != [] ==> out == Rejected(FormErrors(f)))
              && (FormErrors(f) == [] && dbFails ==> out == Rejected([RecordFailed]))
    ensures !out.Recorded? ==> db.Contents() == old(db.Contents())
    ensures out.Rejected? ==> out.errors == FormErrors(f) || (FormErrors(f) == [] && dbFails && out.errors == [RecordFailed])
    ensures out.Recorded? <==>
              session.AdminAllowed() && isPost && session.VerifyCsrfToken(csrfToken) && FormErrors(f) == [] && !dbFails
    ensures out.Recorded? ==>
              && out.paymentId == NextId(old(db.payments), PaymentKey)
              && db.Contents() == old(db.Contents()).(
                   payments := old(db.payments) + [PaymentOf(out.paymentId, f, session.userId.value)],
                   memberships := if f.status == "Completed" then MarkPaid(old(db.memberships), f.membershipId)
                                  else old(db.memberships))
  {
    if !session.AdminAllowed() {
      return AccessDenied;
    }
    if !isPost {
      return FormShown;
    }
    if !session.VerifyCsrfToken(csrfToken) {
      return CsrfRejected;
    }
    var errors := FormErrors(f);
    if errors != [] {
      return Rejected(errors);
    }
    if dbFails {
      return Rejected([RecordFailed]);
    }
    var t := db.Contents();
    var payment := PaymentOf(NextId(db.payments, PaymentKey), f, session.userId.value);
    db.payments := db.payments + [payment];
    if f.status == "Completed" {
      MarkPaidNeverDowngrades(db.memberships, f.membershipId);
      db.memberships := MarkPaid(db.memberships, f.membershipId);
    }
    assert db.Contents() == t.(payments := t.payments + [payment],
                               memberships := if f.status == "Completed" then MarkPaid(t.memberships, f.membershipId)
                                              else t.memberships);
    out := Recorded(payment.id);
  }
}
