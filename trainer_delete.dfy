/** `public/trainers/delete.php`: an admin deletes a trainer. A trainer who has assigned workout
    plans is kept; otherwise their attendance references are cleared and the trainer row is
    removed, in one transaction. The trainer's user account is kept. */
module TrainerDeletion {
  import opened Php
  import opened Calendar
  import opened Schema
  import opened Functions

  /** Some assignment was made by the trainer's user account. A trainer without a user account
      has none, since the subquery gives NULL and no row compares equal to it. */
  predicate HasAssigned(assignments: seq<Assignment>, trainer: Trainer)
    ensures trainer.userId.None? || assignments == [] ==> !HasAssigned(assignments, trainer)
    ensures trainer.userId.Some? && (exists a :: a in assignments && a.assignedBy == trainer.userId.value) ==>
              HasAssigned(assignments, trainer)
  {
    trainer.userId.Some? && exists i :: 0 <= i < |assignments| && assignments[i].assignedBy == trainer.userId.value
  }

  /** `UPDATE attendance SET trainer_id = NULL WHERE trainer_id = ?`. */
  function ClearTrainer(rows: seq<Attendance>, trainerId: int): (r: seq<Attendance>)
    ensures SameSessions(rows, r)
    ensures forall i :: 0 <= i < |rows| && rows[i].trainerId != Some(trainerId) ==> r[i] == rows[i]
    ensures forall i :: 0 <= i < |rows| && rows[i].trainerId == Some(trainerId) ==> r[i] == rows[i].(trainerId := None)
    ensures forall i :: 0 <= i < |r| ==> r[i].trainerId != Some(trainerId)
  {
    seq(|rows|, i requires 0 <= i < |rows| =>
      if rows[i].trainerId == Some(trainerId) then rows[i].(trainerId := None) else rows[i])
  }

  /** The tables after a committed deletion. */
  function Deleted(t: Tables, trainerId: int): (r: Tables)
    ensures forall i :: 0 <= i < |r.trainers| ==> r.trainers[i].id != trainerId
    ensures forall i :: 0 <= i < |r.attendance| ==> r.attendance[i].trainerId != Some(trainerId)
    ensures r.users == t.users && r.assignments == t.assignments && r.members == t.members
    ensures |r.attendance| == |t.attendance|
  {
    t.(attendance := ClearTrainer(t.attendance, trainerId), trainers := RemoveBy(t.trainers, TrainerKey, trainerId))
  }

  datatype Outcome =
    | AccessDenied        // `require_admin()`
    | InvalidId           // no id, or not numeric
    | TrainerNotFound
    | HasAssignments      // refused: the transaction is rolled back
    | DeleteFailed        // a database exception: rolled back
    | TrainerDeleted(name: string)

  /** The whole page. `id` is the numeric `$_GET['id']`, absent when missing or not numeric. */
  method DeleteTrainer(db: Database, session: Session, id: Option<int>, dbFails: bool) returns (out: Outcome)
    requires db.Valid()
    modifies db
    ensures db.Valid()
    ensures !session.AdminAllowed() ==> out == AccessDenied
    ensures session.AdminAllowed() && id.None? ==> out == InvalidId
    ensures out == TrainerNotFound <==> session.AdminAllowed() && id.Some? && FindBy(old(db.trainers), TrainerKey, id.value).None?
    ensures out == HasAssignments <==>
              session.AdminAllowed() && id.Some? && FindBy(old(db.trainers), TrainerKey, id.value).Some?
              && HasAssigned(old(db.assignments), FindBy(old(db.trainers), TrainerKey, id.value).value)
    ensures !out.TrainerDeleted? ==> db.Contents() == old(db.Contents())
    ensures out.TrainerDeleted? <==>
              session.AdminAllowed() && id.Some? && FindBy(old(db.trainers), TrainerKey, id.value).Some?
              && !HasAssigned(old(db.assignments), FindBy(old(db.trainers), TrainerKey, id.value).value) && !dbFails
    ensures out.TrainerDeleted? ==> db.Contents() == Deleted(old(db.Contents()), id.value)
  {
    if !session.AdminAllowed() {
      return AccessDenied;
    }
    if id.None? {
      return InvalidId;
    }
    var trainer := FindBy(db.trainers, TrainerKey, id.value);
    if trainer.None? {
      return TrainerNotFound;
    }
    if HasAssigned(db.assignments, trainer.value) {
      return HasAssignments;
    }
    if dbFails {
      return DeleteFailed;
    }
    var t := db.Contents();
    var cleared := ClearTrainer(db.attendance, id.value);
    SameSessionsKeepInvariants(db.attendance, cleared);
    db.attendance := cleared;
    db.trainers := RemoveBy(db.trainers, TrainerKey, id.value);
    assert db.Contents() == Deleted(t, id.value);
    out := TrainerDeleted(trainer.value.fullName);
  }

  /** Clearing a trainer keeps every visit: the same sessions, the same members, check-in
      times and check-outs, with only the deleted trainer's references gone. */
  lemma ClearTrainerKeepsVisits(rows: seq<Attendance>, trainerId: int)
    ensures forall i :: 0 <= i < |rows| ==>
              ClearTrainer(rows, trainerId)[i].(trainerId := rows[i].trainerId) == rows[i]
  {
  }
}
