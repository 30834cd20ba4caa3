/** `public/workouts/manage.php`: staff add, edit, copy and delete workout plans. A posted form
    is validated, then saved in one transaction that writes the plan row and replaces the plan's
    exercise list with the submitted one. */
module PlanManagement {
  import opened Php
  import opened Calendar
  import opened Schema
  import opened Functions

  // ---------------------------------------------------------------- the posted form

  /** One row of the exercise table of the form, each field absent when not posted. */
  datatype ExerciseInput = ExerciseInput(
    name: string, sets: Option<int>, reps: Option<string>, rest: Option<int>,
    instructions: Option<string>, muscleGroup: Option<string>, day: Option<int>)

  /** The exercise a submitted row becomes: trimmed text, and 3 sets, '8-12' reps, 60 seconds'
      rest and day 1 where the row gave none. */
  function ExerciseOf(e: ExerciseInput): (d: ExerciseData)
    ensures d.name == Trim(e.name)
    ensures d.sets == (if e.sets.Some? then e.sets.value else 3)
    ensures d.reps == (if e.reps.Some? then Trim(e.reps.value) else "8-12")
    ensures d.restSeconds == (if e.rest.Some? then e.rest.value else 60)
    ensures d.dayNumber == (if e.day.Some? then e.day.value else 1)
  {
    ExerciseData(Trim(e.name), if e.sets.Some? then e.sets.value else 3,
                 if e.reps.Some? then Trim(e.reps.value) else "8-12",
                 if e.rest.Some? then e.rest.value else 60,
                 if e.instructions.Some? then Trim(e.instructions.value) else "",
                 if e.muscleGroup.Some? then Trim(e.muscleGroup.value) else "",
                 if e.day.Some? then e.day.value else 1)
  }

  /** A row is kept when its trimmed name is not empty in PHP's sense ("" or "0"). */
  predicate Kept(e: ExerciseInput) {
    !IsEmpty(Trim(e.name))
  }

  /** The exercise list the form yields: the kept rows, converted, in submitted order. */
  function Collected(inputs: seq<ExerciseInput>): (r: seq<ExerciseData>)
    ensures |r| <= |inputs|
    ensures forall d :: d in r ==> !IsEmpty(d.name)
  {
    if inputs == [] then []
    else
      var last := inputs[|inputs| - 1];
      var front := inputs[..|inputs| - 1];
      assert forall i :: 0 <= i < |front| ==> front[i] == inputs[i];
      Collected(front) + (if Kept(last) then [ExerciseOf(last)] else [])
  }

  /** Every row of a form is dropped exactly when every row but the last is, and the last is. */
  lemma NoneKeptSplit(inputs: seq<ExerciseInput>, front: seq<ExerciseInput>)
    requires inputs != [] && front == inputs[..|inputs| - 1]
    ensures (forall i :: 0 <= i < |inputs| ==> !Kept(inputs[i])) <==>
            (forall i :: 0 <= i < |front| ==> !Kept(front[i])) && !Kept(inputs[|inputs| - 1])
  {
    assert forall i :: 0 <= i < |front| ==> front[i] == inputs[i];
  }

  /** No exercise is collected exactly when every submitted name is empty after trimming. */
  lemma {:induction false} NothingCollected(inputs: seq<ExerciseInput>)
    ensures Collected(inputs) == [] <==> forall i :: 0 <= i < |inputs| ==> !Kept(inputs[i])
  {
    if inputs != [] {
      var last := inputs[|inputs| - 1];
      var front := inputs[..|inputs| - 1];
      NothingCollected(front);
      NoneKeptSplit(inputs, front);
      assert Collected(inputs) == Collected(front) + (if Kept(last) then [ExerciseOf(last)] else []);
    }
  }

  /** Collecting two parts of the form one after the other is collecting the whole form: the
      order of the kept rows is the submitted order. */
  lemma {:induction false} CollectedDistributes(a: seq<ExerciseInput>, b: seq<ExerciseInput>)
    ensures Collected(a + b) == Collected(a) + Collected(b)
  {
    if b != [] {
      CollectedDistributes(a, b[..|b| - 1]);
      assert (a + b)[..|a + b| - 1] == a + b[..|b| - 1];
    } else {
      assert a + b == a;
    }
  }

  /** One more posted row adds its exercise when it is kept, and nothing otherwise. */
  lemma CollectedStep(inputs: seq<ExerciseInput>, k: nat)
    requires k < |inputs|
    ensures Collected(inputs[..k + 1]) == Collected(inputs[..k]) + (if Kept(inputs[k]) then [ExerciseOf(inputs[k])] else [])
  {
    assert inputs[..k + 1][..k] == inputs[..k];
  }

  /** The `foreach` over the posted exercise names. */
  method CollectExercises(inputs: seq<ExerciseInput>) returns (data: seq<ExerciseData>)
    ensures data == Collected(inputs)
  {
    data := [];
    for k := 0 to |inputs|
      invariant data == Collected(inputs[..k])
    {
      CollectedStep(inputs, k);
      if Kept(inputs[k]) {
        data := data + [ExerciseOf(inputs[k])];
      }
    }
    assert inputs[..|inputs|] == inputs;
  }

  /** The plan fields of the form. */
  datatype PlanForm = PlanForm(
    name: string, description: string, difficulty: string, durationWeeks: int,
    targetArea: string, equipment: string, isActive: bool)

  /** The plan fields as posted, each absent when not posted. */
  datatype PlanInput = PlanInput(
    name: Option<string>, description: Option<string>, difficulty: Option<string>,
    durationWeeks: Option<int>, targetArea: Option<string>, equipment: Option<string>, isActive: bool)

  function TrimmedOr(s: Option<string>, default: string): string {
    if s.Some? then Trim(s.value) else default
  }

  /** The form read from the post: trimmed text, 'Beginner' and 4 weeks when absent (the
      difficulty is not trimmed). */
  function FormOf(input: PlanInput): (f: PlanForm)
    ensures f.difficulty == (if input.difficulty.Some? then input.difficulty.value else "Beginner")
    ensures f.durationWeeks == (if input.durationWeeks.Some? then input.durationWeeks.value else 4)
    ensures f.name == TrimmedOr(input.name, "")
  {
    PlanForm(TrimmedOr(input.name, ""), TrimmedOr(input.description, ""),
             if input.difficulty.Some? then input.difficulty.value else "Beginner",
             if input.durationWeeks.Some? then input.durationWeeks.value else 4,
             TrimmedOr(input.targetArea, ""), TrimmedOr(input.equipment, ""), input.isActive)
  }

  /** The form an add request starts from. */
  const DefaultForm := PlanForm("", "", "Beginner", 4, "", "", true)

  /** The form an edit or copy request starts from: the plan's fields, with ' (Copy)' after the
      name of a copy. */
  function LoadedForm(p: WorkoutPlan, copy: bool): (f: PlanForm)
    ensures f.name == if copy then p.planName + " (Copy)" else p.planName
    ensures f.durationWeeks == p.durationWeeks && f.isActive == p.isActive
  {
    PlanForm(if copy then p.planName + " (Copy)" else p.planName, p.description, p.difficultyLevel,
             p.durationWeeks, p.targetArea, p.equipmentNeeded, p.isActive)
  }

  datatype PlanError = NameRequired | DurationTooShort | ExerciseRequired

  /** The three checks of the posted form; every failing one adds its error, in this order. */
  method ValidatePlan(form: PlanForm, exercises: seq<ExerciseData>) returns (errors: seq<PlanError>)
    ensures NameRequired in errors <==> IsEmpty(form.name)
    ensures DurationTooShort in errors <==> form.durationWeeks <= 0
    ensures ExerciseRequired in errors <==> exercises == []
    ensures errors == [] <==> !IsEmpty(form.name) && form.durationWeeks > 0 && exercises != []
    ensures |errors| <= 3 && (|errors| > 0 && IsEmpty(form.name) ==> errors[0] == NameRequired)
  {
    errors := [];
    if IsEmpty(form.name) {
      errors := errors + [NameRequired];
    }
    if form.durationWeeks <= 0 {
      errors := errors + [DurationTooShort];
    }
    if exercises == [] {
      errors := errors + [ExerciseRequired];
    }
  }

  // ---------------------------------------------------------------- the tables

  /** The exercises of plan `planId`, in table order: the data of exactly the rows whose
      `workout_plan_id` is the plan. */
  function ExercisesOf(rows: seq<Exercise>, planId: int): (r: seq<ExerciseData>)
    ensures |r| <= |rows|
    ensures forall d :: d in r <==> exists i :: 0 <= i < |rows| && rows[i].planId == planId && rows[i].data == d
  {
    if rows == [] then []
    else
      var last := rows[|rows| - 1];
      var front := rows[..|rows| - 1];
      assert forall i :: 0 <= i < |front| ==> front[i] == rows[i];
      ExercisesOf(front, planId) + (if last.planId == planId then [last.data] else [])
  }

  /** The table order is kept: the exercises of two consecutive stretches of the table are
      those of the first followed by those of the second. */
  lemma {:induction false} ExercisesOfDistributes(a: seq<Exercise>, b: seq<Exercise>, planId: int)
    ensures ExercisesOf(a + b, planId) == ExercisesOf(a, planId) + ExercisesOf(b, planId)
  {
    if b != [] {
      ExercisesOfDistributes(a, b[..|b| - 1], planId);
      assert (a + b)[..|a + b| - 1] == a + b[..|b| - 1];
    } else {
      assert a + b == a;
    }
  }

  /** `DELETE FROM workout_exercises WHERE workout_plan_id = ?`. */
  function WithoutPlan(rows: seq<Exercise>, planId: int): (r: seq<Exercise>)
    ensures |r| <= |rows|
    ensures forall i :: 0 <= i < |r| ==> r[i].planId != planId && r[i] in rows
  {
    if rows == [] then []
    else
      var last := rows[|rows| - 1];
      WithoutPlan(rows[..|rows| - 1], planId) + (if last.planId == planId then [] else [last])
  }

  lemma {:induction false} ExercisesOfWithoutPlan(rows: seq<Exercise>, planId: int, q: int)
    ensures ExercisesOf(WithoutPlan(rows, planId), q) == if q == planId then [] else ExercisesOf(rows, q)
  {
    if rows != [] {
      var front, last := rows[..|rows| - 1], rows[|rows| - 1];
      ExercisesOfWithoutPlan(front, planId, q);
      var w := WithoutPlan(front, planId);
      if last.planId != planId {
        assert (w + [last])[..|w + [last]| - 1] == w;
      } else {
        assert WithoutPlan(rows, planId) == w;
      }
    }
  }

  /** The `foreach` of INSERTs: each exercise gets the next id in turn. */
  function Appended(rows: seq<Exercise>, planId: int, data: seq<ExerciseData>): (r: seq<Exercise>)
    ensures |r| == |rows| + |data|
    ensures r[..|rows|] == rows
    decreases |data|
  {
    if data == [] then rows
    else Appended(rows + [Exercise(NextId(rows, ExerciseKey), planId, data[0])], planId, data[1..])
  }

  lemma {:induction false} ExercisesOfAppended(rows: seq<Exercise>, planId: int, data: seq<ExerciseData>, q: int)
    ensures ExercisesOf(Appended(rows, planId, data), q) == ExercisesOf(rows, q) + (if q == planId then data else [])
    decreases |data|
  {
    if data != [] {
      var e := Exercise(NextId(rows, ExerciseKey), planId, data[0]);
      ExercisesOfAppended(rows + [e], planId, data[1..], q);
      assert (rows + [e])[..|rows + [e]| - 1] == rows;
      assert data == [data[0]] + data[1..];
    }
  }

  /** The plan row after the edit's UPDATE: new fields, same id and author. */
  function Edited(p: WorkoutPlan, f: PlanForm): (r: WorkoutPlan)
    ensures r.id == p.id && r.createdBy == p.createdBy
    ensures r.planName == f.name && r.durationWeeks == f.durationWeeks && r.isActive == f.isActive
  {
    p.(planName := f.name, description := f.description, difficultyLevel := f.difficulty,
       durationWeeks := f.durationWeeks, targetArea := f.targetArea, equipmentNeeded := f.equipment,
       isActive := f.isActive)
  }

  /** `UPDATE workout_plans SET ... WHERE id = ?`. */
  function EditById(rows: seq<WorkoutPlan>, id: int, f: PlanForm): (r: seq<WorkoutPlan>)
    ensures |r| == |rows|
    ensures forall i :: 0 <= i < |rows| ==> r[i] == if rows[i].id == id then Edited(rows[i], f) else rows[i]
  {
    seq(|rows|, i requires 0 <= i < |rows| => if rows[i].id == id then Edited(rows[i], f) else rows[i])
  }

  /** The plan row an add or a copy inserts: the form's fields and the creator. */
  function NewPlan(id: int, f: PlanForm, createdBy: Option<int>): (p: WorkoutPlan)
    ensures p.id == id && p.createdBy == createdBy && p.planName == f.name && p.difficultyLevel == f.difficulty
    ensures p.durationWeeks == f.durationWeeks && p.isActive == f.isActive && p.description == f.description
    ensures p.targetArea == f.targetArea && p.equipmentNeeded == f.equipment
  {
    WorkoutPlan(id, f.name, f.description, f.difficulty, f.durationWeeks, f.targetArea, f.equipment,
                createdBy, f.isActive)
  }

  /** The tables after a committed save: an edit rewrites plan `planId` and swaps its exercises;
      an add or a copy appends a new plan and its exercises. */
  function Saved(t: Tables, isEdit: bool, planId: int, f: PlanForm, createdBy: Option<int>,
                 data: seq<ExerciseData>): Tables
  {
    if isEdit then
      t.(plans := EditById(t.plans, planId, f),
         exercises := Appended(WithoutPlan(t.exercises, planId), planId, data))
    else
      var id := NextId(t.plans, PlanKey);
      t.(plans := t.plans + [NewPlan(id, f, createdBy)], exercises := Appended(t.exercises, id, data))
  }

  /** A save leaves the saved plan with exactly the submitted exercises, in order, and every
      other plan with the exercises it had. */
  lemma SaveReplacesExercises(t: Tables, isEdit: bool, planId: int, f: PlanForm, createdBy: Option<int>,
                              data: seq<ExerciseData>, q: int)
    ensures var saved := if isEdit then planId else NextId(t.plans, PlanKey);
            ExercisesOf(Saved(t, isEdit, planId, f, createdBy, data).exercises, q)
              == if q == saved then (if isEdit then [] else ExercisesOf(t.exercises, q)) + data
                 else ExercisesOf(t.exercises, q)
  {
    if isEdit {
      ExercisesOfWithoutPlan(t.exercises, planId, q);
      ExercisesOfAppended(WithoutPlan(t.exercises, planId), planId, data, q);
    } else {
      ExercisesOfAppended(t.exercises, NextId(t.plans, PlanKey), data, q);
    }
  }

  /** A new plan has no exercises before its own are inserted, when the exercise table only
      refers to existing plans: so an add or a copy gives the new plan exactly the submitted
      list, and the copied plan keeps its own. */
  lemma {:induction false} NoExercisesOfFreshPlan(rows: seq<Exercise>, plans: seq<WorkoutPlan>)
    requires forall i :: 0 <= i < |rows| ==> HasPlan(plans, rows[i].planId)
    ensures ExercisesOf(rows, NextId(plans, PlanKey)) == []
  {
    if rows != [] {
      var front := rows[..|rows| - 1];
      assert forall i :: 0 <= i < |front| ==> front[i] == rows[i];
      NoExercisesOfFreshPlan(front, plans);
      assert HasPlan(plans, rows[|rows| - 1].planId);
      var j :| 0 <= j < |plans| && plans[j].id == rows[|rows| - 1].planId;
      assert PlanKey(plans[j]) < NextId(plans, PlanKey);
    }
  }

  predicate HasPlan(plans: seq<WorkoutPlan>, planId: int) {
    exists j :: 0 <= j < |plans| && plans[j].id == planId
  }

  /** An edit changes only the edited plan's row and keeps the plan ids. */
  lemma EditKeepsOtherPlans(rows: seq<WorkoutPlan>, id: int, f: PlanForm)
    requires DistinctBy(rows, PlanKey)
    ensures DistinctBy(EditById(rows, id, f), PlanKey)
    ensures forall i :: 0 <= i < |rows| && rows[i].id != id ==> EditById(rows, id, f)[i] == rows[i]
  {
    var r := EditById(rows, id, f);
    forall i, j | 0 <= i < j < |r|
      ensures PlanKey(r[i]) != PlanKey(r[j])
    {
      assert PlanKey(rows[i]) != PlanKey(rows[j]);
    }
  }

  /** Some member follows the plan (`COUNT(*) ... status = 'Active'` is positive). */
  predicate PlanInUse(rows: seq<Assignment>, planId: int)
    ensures !PlanInUse(rows, planId) ==> forall memberId :: !HasActiveAssignment(rows, memberId, planId)
    ensures forall memberId :: HasActiveAssignment(rows, memberId, planId) ==> PlanInUse(rows, planId)
  {
    exists i :: 0 <= i < |rows| && rows[i].planId == planId && rows[i].status.Active?
  }

  /** The tables after a deletion: the plan's exercises, then the plan. */
  function DeletedPlan(t: Tables, planId: int): (r: Tables)
    ensures forall i :: 0 <= i < |r.plans| ==> r.plans[i].id != planId
    ensures ExercisesOf(r.exercises, planId) == []
    ensures r.assignments == t.assignments && r.members == t.members
  {
    ExercisesOfWithoutPlan(t.exercises, planId, planId);
    t.(exercises := WithoutPlan(t.exercises, planId), plans := RemoveBy(t.plans, PlanKey, planId))
  }

  // ---------------------------------------------------------------- the page

  /** A trainer may change only a plan they created; an admin any plan. */
  predicate MayChange(session: Session, p: WorkoutPlan)
    reads session
    ensures session.IsAdmin() ==> MayChange(session, p)
    ensures session.IsTrainer() && p.createdBy.None? ==> !MayChange(session, p)
  {
    !session.IsTrainer() || (p.createdBy.Some? && session.userId == p.createdBy)
  }

  predicate NeedsPlan(action: string) {
    action == "edit" || action == "copy" || action == "delete"
  }

  datatype Outcome =
    | AccessDenied      // `require_staff()`
    | InvalidPlanId
    | PlanNotFound
    | NotOwner
    | DeleteRefused     // members still follow the plan
    | Deleted(name: string)
    | FormShown(form: PlanForm, isEdit: bool)
    | Invalid(errors: seq<PlanError>)
    | SaveFailed        // the transaction threw and was rolled back
    | SavedPlan(planId: int)

  /** A request that passes the page's guards: staff, and for edit, copy and delete an
      existing plan the caller may change. */
  predicate Reached(session: Session, action: string, planId: int, plans: seq<WorkoutPlan>)
    reads session
  {
    && session.StaffAllowed()
    && (NeedsPlan(action) ==>
          planId > 0 && FindBy(plans, PlanKey, planId).Some? && MayChange(session, FindBy(plans, PlanKey, planId).value))
  }

  /** The deletion branch: refused while any member follows the plan. */
  method DeletePlan(db: Database, planId: int) returns (deleted: bool)
    requires db.Valid()
    modifies db
    ensures db.Valid()
    ensures deleted <==> !PlanInUse(old(db.assignments), planId)
    ensures deleted ==> db.Contents() == DeletedPlan(old(db.Contents()), planId)
    ensures !deleted ==> db.Contents() == old(db.Contents())
  {
    if PlanInUse(db.assignments, planId) {
      return false;
    }
    var t := db.Contents();
    db.exercises := WithoutPlan(db.exercises, planId);
    db.plans := RemoveBy(db.plans, PlanKey, planId);
    assert db.Contents() == DeletedPlan(t, planId);
    deleted := true;
  }

  /** The INSERT loop of the save: the exercises go in one by one, in order. */
  method InsertExercises(db: Database, planId: int, data: seq<ExerciseData>)
    modifies db
    ensures db.Contents() == old(db.Contents()).(exercises := Appended(old(db.exercises), planId, data))
  {
    for k := 0 to |data|
      invariant Appended(db.exercises, planId, data[k..]) == Appended(old(db.exercises), planId, data)
      invariant db.Contents() == old(db.Contents()).(exercises := db.exercises)
    {
      assert data[k..][1..] == data[k + 1..];
      db.exercises := db.exercises + [Exercise(NextId(db.exercises, ExerciseKey), planId, data[k])];
    }
    assert data[|data|..] == [];
  }

  /** The committed transaction of a save. */
  method SavePlan(db: Database, isEdit: bool, planId: int, f: PlanForm, createdBy: Option<int>,
                  data: seq<ExerciseData>) returns (savedId: int)
    requires db.Valid()
    modifies db
    ensures db.Valid()
    ensures db.Contents() == Saved(old(db.Contents()), isEdit, planId, f, createdBy, data)
    ensures savedId == if isEdit then planId else NextId(old(db.plans), PlanKey)
  {
    var t := db.Contents();
    if isEdit {
      EditKeepsOtherPlans(db.plans, planId, f);
      db.plans := EditById(db.plans, planId, f);
      db.exercises := WithoutPlan(db.exercises, planId);
      savedId := planId;
    } else {
      savedId := NextId(db.plans, PlanKey);
      AppendFresh(db.plans, PlanKey, NewPlan(savedId, f, createdBy));
      db.plans := db.plans + [NewPlan(savedId, f, createdBy)];
    }
    InsertExercises(db, savedId, data);
  }

  /** The whole page. `action` is `$_GET['action']` ('add' when absent), `planId` is
      `(int)$_GET['id']` (0 when absent). Deletion happens on the request that asks for it; every
      other request shows the form unless it is a POST, which validates and saves. */
  method ManagePlan(db: Database, session: Session, action: string, planId: int, isPost: bool,
                    input: PlanInput, posted: seq<ExerciseInput>, dbFails: bool) returns (out: Outcome)
    requires db.Valid()
    modifies db
    ensures db.Valid()
    ensures !session.StaffAllowed() ==> out == AccessDenied
    ensures session.StaffAllowed() && NeedsPlan(action) && planId <= 0 ==> out == InvalidPlanId
    ensures out == PlanNotFound <==>
              session.StaffAllowed() && NeedsPlan(action) && planId > 0 && FindBy(old(db.plans), PlanKey, planId).None?
    ensures out == NotOwner <==>
              session.StaffAllowed() && NeedsPlan(action) && planId > 0 && FindBy(old(db.plans), PlanKey, planId).Some?
              && !MayChange(session, FindBy(old(db.plans), PlanKey, planId).value)
    ensures Reached(session, action, planId, old(db.plans)) && action == "delete" ==>
              (out.Deleted? <==> !PlanInUse(old(db.assignments), planId))
              && (out == DeleteRefused <==> PlanInUse(old(db.assignments), planId))
    ensures out.FormShown? <==> Reached(session, action, planId, old(db.plans)) && action != "delete" && !isPost
    ensures Reached(session, action, planId, old(db.plans)) && action != "delete" && isPost ==>
              var valid := !IsEmpty(FormOf(input).name) && FormOf(input).durationWeeks > 0 && Collected(posted) != [];
              && (out.Invalid? <==> !valid)
              && (out == SaveFailed <==> valid && dbFails)
              && (out.SavedPlan? <==> valid && !dbFails)
    ensures out.Deleted? || out == DeleteRefused ==> action == "delete"
    ensures out == DeleteRefused ==> PlanInUse(old(db.assignments), planId)
    ensures out.Deleted? ==> db.Contents() == DeletedPlan(old(db.Contents()), planId)
                             && !PlanInUse(old(db.assignments), planId)
    ensures out.FormShown? ==>
              && !isPost && out.isEdit == (action == "edit")
              && out.form == if NeedsPlan(action) then LoadedForm(FindBy(old(db.plans), PlanKey, planId).value, action == "copy")
                             else DefaultForm
    ensures out.Invalid? ==>
              isPost && out.errors != [] && (NameRequired in out.errors <==> IsEmpty(FormOf(input).name))
              && (ExerciseRequired in out.errors <==> Collected(posted) == [])
              && (DurationTooShort in out.errors <==> FormOf(input).durationWeeks <= 0)
    ensures !(out.Deleted? || out.SavedPlan?) ==> db.Contents() == old(db.Contents())
    ensures out.SavedPlan? ==>
              && isPost && !dbFails && action != "delete"
              && !IsEmpty(FormOf(input).name) && FormOf(input).durationWeeks > 0 && Collected(posted) != []
              && db.Contents() == Saved(old(db.Contents()), action == "edit", planId, FormOf(input),
                                        if session.IsTrainer() then session.userId else None, Collected(posted))
              && out.planId == if action == "edit" then planId else NextId(old(db.plans), PlanKey)
  {
    if !session.StaffAllowed() {
      return AccessDenied;
    }
    var form := DefaultForm;
    if NeedsPlan(action) {
      if planId <= 0 {
        return InvalidPlanId;
      }
      var plan := FindBy(db.plans, PlanKey, planId);
      if plan.None? {
        return PlanNotFound;
      }
      if !MayChange(session, plan.value) {
        return NotOwner;
      }
      if action == "delete" {
        var deleted := DeletePlan(db, planId);
        return if deleted then Deleted(plan.value.planName) else DeleteRefused;
      }
      form := LoadedForm(plan.value, action == "copy");
    }
    if !isPost {
      return FormShown(form, action == "edit");
    }
    form := FormOf(input);
    var exercises := CollectExercises(posted);
    var errors := ValidatePlan(form, exercises);
    if errors != [] {
      return Invalid(errors);
    }
    if dbFails {
      return SaveFailed;
    }
    var createdBy := if session.IsTrainer() then session.userId else None;
    var id := SavePlan(db, action == "edit", planId, form, createdBy, exercises);
    out := SavedPlan(id);
  }
}
