# Gym management: a verified model of the page scripts

The system is a PHP gym-management web application backed by MySQL. Each page script checks
who is asking, validates the request, reads a few tables and writes a few rows. This project
models those scripts as sequential state changes of one database. It covers:

- membership validation and the AJAX check-in;
- the check-in and check-out pages;
- renewal and payment recording;
- starting and stopping workout plans;
- creating, editing, copying and deleting workout plans;
- the member search endpoint;
- self-registration;
- trainer deletion;
- the shared helpers of `includes/functions.php`.

## Layout

| file | module | models |
|---|---|---|
| `php.dfy` | `Php` | the PHP built-ins the scripts lean on: `empty()` on strings, `trim`, `strtolower`, `ucfirst`, SQL `LIKE '%q%'` as substring, collation order, two-digit clock fields |
| `calendar.dfy` | `Calendar` | timestamps (seconds since 1970) and days; `date('Y-m-d')`; `strtotime("+N month")`, which rolls an overflowing day of the month into the next month |
| `schema.dfy` | `Schema` | one datatype per table row; the `Tables` snapshot; the invariants every script keeps; the `Database` class with one sequence field per table |
| `functions.dfy` | `Functions` | `includes/functions.php` and the guards of `includes/auth.php`: the `Session`, role predicates, CSRF tokens, status badges, `check_out_member` |
| `validate_membership.dfy` | `MembershipValidation` | `public/ajax/validate-membership.php` |
| `checkin.dfy` | `CheckIn` | `public/attendance/checkin.php` |
| `checkout.dfy` | `CheckOut` | `public/attendance/checkout.php` |
| `renew.dfy` | `Renewal` | `public/memberships/renew.php` |
| `payments.dfy` | `Payments` | `public/payments/add.php` |
| `start_plan.dfy` | `PlanStart` | `public/workouts/start-plan.php` |
| `stop_plan.dfy` | `PlanStop` | `public/workouts/stop-plan.php` |
| `manage_plan.dfy` | `PlanManagement` | `public/workouts/manage.php` |
| `search.dfy` | `MemberSearch` | `public/ajax/search-members.php` |
| `register.dfy` | `Registration` | `public/register.php` |
| `trainer_delete.dfy` | `TrainerDeletion` | `public/trainers/delete.php` |

### Conventions

- **The database.** It is a `Database` object whose fields are the tables. A page script is a
  method that `modifies` it.
- **The invariant.** `Valid()` says that ids are unique in the members, memberships, attendance,
  member_workouts, workout_plans, trainers and users tables (the tables whose rows the pages look
  up or update by id), and that:
  - no member has two sessions open on the same day;
  - no member has two Active assignments of the same plan.

  Every page method requires and ensures it. Each states its new state as a function of the
  old one (`db.Contents() == old(db.Contents()).(...)`), so "nothing else changes" is part of
  every contract.
- **Redirects and HTTP error responses.** Each is an outcome constructor: `AccessDenied`,
  `InvalidId`, `Forbidden`, ... Where a guard in `includes/auth.php` redirects, the method
  returns that outcome and writes nothing.
- **Request inputs.** These are parameters after PHP's casts:
  - `(int)` of an absent field is 0;
  - `?? default` is an `Option` or an explicit default.
- **The clock (`NOW()`, `CURDATE()`, `date()`).** It is the parameter `now`, in seconds; today
  is `DayOf(now)`.
- **Database exceptions.** A `dbFails` flag stands for one. It is used only where the script
  catches it inside a transaction, or reports it and changes nothing.
- **Auto-increment ids.** `NextId` gives a value above every id in the table.

## Model

| member | source | states |
|---|---|---|
| Php.Trim | fitness/public/register.php:24-27 | `trim()` strips leading and trailing whitespace only: the result is a contiguous part of the input, everything before and after it is whitespace, it starts and ends with a non-blank, and a string with no blank end is returned unchanged |
| Php.TrimLeft | fitness/public/register.php:24 | the left half of `trim()`: a suffix of the input, all of whose dropped characters are whitespace |
| Php.TrimRight | fitness/public/register.php:24 | the right half of `trim()`: a prefix of the input, all of whose dropped characters are whitespace |
| Php.LowerChar | fitness/includes/functions.php:155 | one character of `strtolower`: never an upper-case ASCII letter, and non-letters are unchanged |
| Php.ToLower | fitness/includes/functions.php:155 | `strtolower` keeps the length and lowers each character |
| Php.ToLowerIdempotent | fitness/includes/functions.php:155 | lower-casing twice is lower-casing once |
| Php.UpperFirst | fitness/public/attendance/checkin.php:135 | `ucfirst` keeps everything after the first character and capitalises a lower-case first letter |
| Php.ContainsAt | fitness/public/ajax/search-members.php:33 | a `LIKE '%q%'` match holds whenever the query occurs at some position |
| Php.LexLeTotal | fitness/public/ajax/search-members.php:60 | the name order of `ORDER BY first_name, last_name` compares any two strings |
| Php.LexLeTransitive | fitness/public/ajax/search-members.php:60 | that order is transitive |
| Php.TwoDigits | fitness/public/attendance/checkin.php:136 | a zero-padded field of `date('H:i')` is two decimal digits denoting the number |
| Calendar.DayOf | fitness/public/ajax/validate-membership.php:83 | `CURDATE()` / `DATE(ts)`: the day whose midnight-to-midnight range holds the timestamp |
| Calendar.MonthLength | fitness/public/memberships/renew.php:39 | a calendar month has 28 to 31 days |
| Calendar.MonthStartIncreasing | fitness/public/memberships/renew.php:39 | months follow each other: a later month starts after an earlier one ends |
| Calendar.Locate | fitness/public/memberships/renew.php:39 | finds the month holding a day, searching forward |
| Calendar.MonthOf | fitness/public/memberships/renew.php:39 | every day lies in a month |
| Calendar.MonthOfUnique | fitness/public/memberships/renew.php:39 | and in only one |
| Calendar.DayOfMonth | fitness/public/memberships/renew.php:39 | the day of the month is between 1 and the month's length |
| Calendar.AddMonths | fitness/public/memberships/renew.php:39 | `strtotime("+N month")`: adding zero months is the identity |
| Calendar.MonthStartGrowth | fitness/public/memberships/renew.php:39 | N months span between 28·N and 31·N days |
| Calendar.AddMonthsGrowth | fitness/public/memberships/renew.php:39 | adding N months moves a day forward by 28·N to 31·N days |
| Calendar.AddMonthsStrictlyIncreasing | fitness/public/memberships/renew.php:39 | adding more months gives a strictly later day |
| Calendar.AddMonthsKeepsDayOfMonth | fitness/public/memberships/renew.php:39 | when the target month is long enough, the result is the same day of the month N months later |
| Calendar.AddMonthsRollsOver | fitness/public/memberships/renew.php:39 | when it is not, the overflow rolls into the following month (no clamping to the month's end) |
| Schema.NextId | fitness/public/attendance/checkin.php:123 | `lastInsertId()`: a positive id above every id already in the table |
| Schema.AppendFresh | fitness/public/attendance/checkin.php:111-123 | appending a row with that id keeps the ids distinct |
| Schema.FindBy | fitness/public/trainers/delete.php:16-18 | `SELECT ... WHERE id = ?` + `fetch()`: a row with that id when one exists, nothing exactly when none does |
| Schema.RemoveBy | fitness/public/trainers/delete.php:40-41 | `DELETE ... WHERE id = ?`: no row with that id remains, every other row is kept, ids stay distinct |
| Schema.Close | fitness/public/attendance/checkout.php:40-46 | closing a session sets its check-out time and duration and nothing else |
| Schema.SameSessionsKeepInvariants | fitness/includes/functions.php:202-209 | updating attendance rows in place, without changing any row's id, member or check-in or reopening one, keeps ids distinct and at most one open session per member per day |
| Schema.OpenGuardKeepsInvariant | fitness/public/attendance/checkin.php:68-80 | the open-session guard preserves "at most one open session per member per day" when a new session is appended |
| Schema.ActiveGuardKeepsInvariant | fitness/public/workouts/start-plan.php:28-44 | the duplicate-Active guard preserves "at most one Active assignment per member and plan" when an assignment is appended |
| Schema.Database.AddVisit | fitness/public/attendance/checkin.php:111-121 | the attendance insert behind the open-session guard: appends exactly that row and keeps the invariant |
| Schema.Database.AddAssignment | fitness/public/workouts/start-plan.php:40-44 | the `member_workouts` insert behind the duplicate-Active guard: appends exactly that row and keeps the invariant |
| Schema.Database.AddNotification | fitness/includes/functions.php:21-30 | `create_notification`: appends one notification row, nothing else changes |
| Schema.Database.AddAuditLog | fitness/public/ajax/validate-membership.php:162-172 | appends one audit-log row, nothing else changes |
| Functions.Session.CurrentMemberId | fitness/includes/functions.php:95-98 | `get_member_id()` taken as a truth value: present exactly when a non-zero member id is in the session |
| Functions.Session.VerifyCsrfToken | fitness/includes/functions.php:187-193 | false when the session holds no token or the given one is empty; otherwise true exactly when the two are equal |
| Functions.Session.GenerateCsrfToken | fitness/includes/functions.php:176-182 | keeps a token already set; otherwise stores the fresh random one; the returned token is the stored one and is non-empty |
| Functions.GenerateTwice | fitness/includes/functions.php:176-182 | two calls return the same token, and it verifies |
| Functions.RolePredicates | fitness/includes/functions.php:13-16 | `is_staff` holds exactly for the admin and trainer roles; a member is never staff; no role means neither |
| Functions.StatusBadge | fitness/includes/functions.php:153-171 | `get_status_badge` is total: success for active/paid/completed, warning for inactive/pending, error for suspended/overdue/failed, info for anything else, after lower-casing |
| Functions.StatusBadgeIgnoresCase | fitness/includes/functions.php:155 | the badge does not depend on letter case |
| Functions.ToLowerCapitalised | fitness/includes/functions.php:155 | a capitalised word lower-cases to the word with its first letter lowered |
| Functions.MemberStatusBadge | fitness/includes/functions.php:157-167 | Active, Inactive and Suspended members get success, warning and error |
| Functions.PaymentStatusBadge | fitness/includes/functions.php:157-167 | Paid, Pending and Overdue memberships get success, warning and error |
| Functions.TruncatedMinutes | fitness/includes/functions.php:205 | `TIMESTAMPDIFF(MINUTE, ...)`: whole minutes, truncated toward zero |
| Functions.CloseOpenToday | fitness/includes/functions.php:202-209 | the UPDATE closes exactly the member's sessions opened today and still open, with truncated minutes; all other rows are unchanged; no open session of the member remains today |
| Functions.OpenTodayCount | fitness/includes/functions.php:211 | `rowCount()` is positive exactly when the member has a session open today |
| Functions.CheckOutMember | fitness/includes/functions.php:198-215 | `check_out_member`: returns true exactly when some session was open today and no exception occurred; on an exception nothing changes; otherwise only the attendance table changes, as `CloseOpenToday` says; the invariant is kept |
| MembershipValidation.LatestQualifying | fitness/public/ajax/validate-membership.php:73-89 | the membership query: one of the member's Paid, unexpired memberships with the latest expiry, or none exactly when none qualifies |
| MembershipValidation.DaysLeft | fitness/public/ajax/validate-membership.php:80 | `DATEDIFF(expiry_date, CURDATE())`: today plus the days left is the expiry |
| MembershipValidation.ExpiryStateOf | fitness/public/ajax/validate-membership.php:102-103 | 'warning' exactly when 7 or fewer days are left |
| MembershipValidation.IsAjax | fitness/public/ajax/validate-membership.php:11 | the request is AJAX exactly when the header is present and lower-cases to 'xmlhttprequest'; the `empty()` test adds nothing |
| MembershipValidation.AutoCheckIn | fitness/public/ajax/validate-membership.php:127-132 | the automatic visit is open, checked in now, without trainer, noted 'Auto check-in via system' |
| MembershipValidation.ValidationLog | fitness/public/ajax/validate-membership.php:162-172 | the audit row names the user, the member, the 'members' table and now, with action 'member_checkin' for a check-in and 'membership_validation' otherwise |
| MembershipValidation.Resolve | fitness/public/ajax/validate-membership.php:43-103 | unknown member, member not Active, no qualifying membership, or entitled with the latest-expiring qualifying membership, non-negative days left and the warning flag |
| MembershipValidation.ResolveDependsOnlyOnMemberRows | fitness/public/ajax/validate-membership.php:45-89 | entitlement and days left depend only on the member's row and their own memberships |
| MembershipValidation.RecordValidation | fitness/public/ajax/validate-membership.php:105-172 | for an entitled member: a 'checkin' with a session open today writes nothing; otherwise exactly one open auto check-in row is appended for 'checkin' (none for any other action), then one audit-log row |
| MembershipValidation.ValidateMembership | fitness/public/ajax/validate-membership.php:10-175 | 403 for a non-AJAX request; 401 with no user; 405 for a non-POST request; failure for an id of 0 or less. For an admitted request each failure is reported exactly when `Resolve` gives its case: not found, not Active, no Paid unexpired membership; 'already checked in' exactly when an entitled member asks to check in with a session open today. It succeeds exactly when the member is entitled and is not such a repeat check-in. Every failure writes nothing. Only the exact action 'checkin' appends an attendance row. Every success, including a plain 'check', appends one audit-log row |
| CheckIn.FirstFailingGuard | fitness/public/attendance/checkin.php:50-96 | the error of the first failing guard, in the page's order: selected, exists, Active, no open session today, Paid unexpired membership; none exactly when all pass |
| CheckIn.CheckInGuards | fitness/public/attendance/checkin.php:49-96 | the error list built step by step holds at most one error, that of `FirstFailingGuard`, and is empty exactly when every guard passes |
| CheckIn.GuardOrderDiffers | fitness/public/attendance/checkin.php:67-96 | for an Active member with an open session today and no Paid membership, the page reports the open session while the AJAX endpoint reports the missing membership |
| CheckIn.GuardsAgreeOnSuccess | fitness/public/attendance/checkin.php:50-96 | the page's guards pass exactly when the AJAX endpoint finds an entitlement and no session is open today |
| CheckIn.ClockTime | fitness/public/attendance/checkin.php:136 | `date('H:i')` is five characters with a colon in the middle |
| CheckIn.WorkoutTypeOf | fitness/public/attendance/checkin.php:102-104 | the stored workout type is never empty: the trimmed input, or 'General' |
| CheckIn.TrainerOf | fitness/public/attendance/checkin.php:107-109 | a posted trainer is kept; without one, a trainer user's own trainer id is used |
| CheckIn.VisitOf | fitness/public/attendance/checkin.php:111-121 | the inserted row is open and checked in now |
| CheckIn.Notifies | fitness/public/attendance/checkin.php:132-138 | only staff check-ins notify, and only a member with a user account |
| CheckIn.CheckInMember | fitness/public/attendance/checkin.php:6-138 | login required; a member user without a profile is sent away; a member user always checks in themselves. A GET shows the form. On a POST, a failing guard gives exactly the first failing guard's error, a failing insert gives the insert error, and otherwise the visit is recorded. Rejections write nothing. A success appends exactly one open attendance row with the defaults applied. It stores a notification exactly when the caller is staff, the member has a user account and the notification insert does not fail. Nothing else changes and the invariant is kept |
| CheckIn.RecordCheckIn | fitness/public/attendance/checkin.php:106-138 | after the guards: exactly one visit with the next id is appended; the notification row is appended exactly when the caller is staff, the member has a user account and its insert does not fail; nothing else changes and the invariant is kept |
| CheckOut.RoundedMinutes | fitness/public/attendance/checkout.php:38-47 | `round(seconds / 60)`: the nearest whole minute, halves away from zero |
| CheckOut.RoundingVersusTruncation | fitness/public/attendance/checkout.php:47 | the page's rounding and `check_out_member`'s truncation differ by at most one minute, and by one exactly when 30 or more seconds are left over |
| CheckOut.CloseById | fitness/public/attendance/checkout.php:40-46 | only the row with that id is closed; every other row is unchanged |
| CheckOut.RecordOf | fitness/public/attendance/checkout.php:15-22 | the record is found only when its member exists, as the JOIN requires |
| CheckOut.CheckOutRecord | fitness/public/attendance/checkout.php:6-56 | staff only. An id of 0, an unknown record or an already closed record gives its error and changes nothing. On an open record a failed UPDATE is reported exactly when it fails and changes nothing; otherwise the check-out succeeds, and only that row gets check-out now and the rounded duration |
| CheckOut.ClosedRecordStaysClosed | fitness/public/attendance/checkout.php:29-32 | after a check-out the record is found again, closed, with that time and duration |
| CheckOut.CheckOutTwice | fitness/public/attendance/checkout.php:29-32 | a second check-out of the same record is refused, so the stored duration is never rewritten |
| Renewal.RenewalDates | fitness/public/memberships/renew.php:33-40 | the new start is the later of the current expiry and today; the new expiry is the start plus N months |
| Renewal.RenewalExtends | fitness/public/memberships/renew.php:37-40 | for one month or more, the new start keeps the unused days (never before the expiry or today), and the new expiry lies after the start and at least 28 days per month after the old expiry |
| Renewal.LongerRenewalLaterExpiry | fitness/public/memberships/renew.php:39 | a longer renewal gives a strictly later expiry |
| Renewal.Renewed | fitness/public/memberships/renew.php:46-54 | the UPDATE sets start, expiry, Paid, payment method and created_at, and keeps member, plan name, plan type and price |
| Renewal.RenewById | fitness/public/memberships/renew.php:46-61 | only the row with that id changes |
| Renewal.MembershipOf | fitness/public/memberships/renew.php:15-22 | the membership is found only when its member exists, as the JOIN requires |
| Renewal.Renew | fitness/public/memberships/renew.php:6-68 | admin only. An id of 0 or an unknown membership gives its error and no update. A GET shows the form. A POST on a found membership fails exactly when the UPDATE fails, which changes nothing, and otherwise renews: the same row is overwritten with the renewal dates and marked Paid, no row is added, and nothing else changes |
| Renewal.RenewalKeepsRows | fitness/public/memberships/renew.php:46-61 | the renewal adds and removes no membership row and keeps ids distinct |
| Payments.FormOf | fitness/public/payments/add.php:37-45 | the posted form with its defaults: membership 0, 'Cash', 'Completed', today; the amount, payment method, transaction id and notes are trimmed, the status is not |
| Payments.FormErrors | fitness/public/payments/add.php:47-50 | a missing membership and a missing amount are each reported, independently |
| Payments.PaymentOf | fitness/public/payments/add.php:57-70 | the inserted payment row carries the sanitised form's fields and the current user as processor |
| Payments.MarkPaid | fitness/public/payments/add.php:73-76 | only the rows with that membership id become Paid |
| Payments.MarkPaidNeverDowngrades | fitness/public/payments/add.php:73-76 | every membership keeps its payment status or becomes Paid, and ids stay distinct |
| Payments.AddPayment | fitness/public/payments/add.php:6-86 | admin only. A GET shows the form, exactly. A bad CSRF token stops the page before any write. Form errors are reported as `FormErrors` gives them, and a rolled-back transaction is reported as a failure; both write nothing. Otherwise exactly one payment row is appended, processed by the current user. The membership becomes Paid exactly when the status is 'Completed'; any other status leaves the memberships unchanged |
| PlanStart.NewAssignment | fitness/public/workouts/start-plan.php:40-44 | the new assignment is Active and has no end date |
| PlanStart.StartPlan | fitness/public/workouts/start-plan.php:6-57 | member only. Without a profile, without a POST or with a plan id of 0 nothing changes. It refuses exactly when the pair already has an Active assignment. Otherwise exactly one Active row is appended, assigned by the current user. The invariant is kept |
| PlanStart.StartTwice | fitness/public/workouts/start-plan.php:28-44 | starting the same plan twice: the second request is refused and the invariant still holds |
| PlanStop.FirstPairRow | fitness/public/workouts/stop-plan.php:28-35 | the first assignment row of the member and plan, or none exactly when there is none |
| PlanStop.LookupAsWritten | fitness/public/workouts/stop-plan.php:28-35 | the script's lookup: a row of the pair, whatever its status, provided the plan exists |
| PlanStop.FirstActiveRow | fitness/public/workouts/stop-plan.php:50-55 | the pair's Active row, or none exactly when the pair has none |
| PlanStop.Lookup | fitness/public/workouts/stop-plan.php:28-47 | the corrected lookup: a row of the pair, and an Active one exactly when the pair has an Active assignment |
| PlanStop.RestartedPlanCannotBeStopped | fitness/public/workouts/stop-plan.php:28-47 | for a plan that was stopped and restarted, the lookup as written fetches the Completed row, while the corrected one fetches the Active row |
| PlanStop.CompleteActive | fitness/public/workouts/stop-plan.php:50-55 | only the pair's Active rows become Completed, ended now; every other row is unchanged |
| PlanStop.CompleteActiveKeepsInvariants | fitness/public/workouts/stop-plan.php:50-55 | completing keeps ids distinct and at most one Active row per pair, and leaves the pair with none |
| PlanStop.ActiveCount | fitness/public/workouts/stop-plan.php:63 | `rowCount()` is positive exactly when the pair has an Active assignment |
| PlanStop.StopPlan | fitness/public/workouts/stop-plan.php:6-81 | member only. Uses the corrected lookup. For a logged-in member posting a plan id: a database failure is reported exactly when it occurs; otherwise 'not assigned' exactly when the lookup finds no row, and 'already <status>' exactly when it finds a non-Active row; both change nothing. It succeeds exactly when the pair has an Active assignment, completing only those rows, so 'not currently active' is never reported |
| MemberSearch.Rank | fitness/public/ajax/search-members.php:52-59 | rank 1 to 5: 1 exactly for a first-name match, 5 exactly when first name, last name, email and phone all miss |
| MemberSearch.Matches | fitness/public/ajax/search-members.php:46-51 | the WHERE clause holds exactly when the rank is below 5 (a name, e-mail or phone match) or the full name matches |
| MemberSearch.Matching | fitness/public/ajax/search-members.php:46-51 | every kept member matches, every matching member is kept, and nothing is added |
| MemberSearch.NotAfterTotal | fitness/public/ajax/search-members.php:52-60 | any two members are ordered by rank, then first name, then last name |
| MemberSearch.Insert | fitness/public/ajax/search-members.php:52-60 | inserting into an ordered list keeps it ordered and adds exactly that member |
| MemberSearch.Sort | fitness/public/ajax/search-members.php:52-60 | the result order is a permutation of the matches, ordered by rank, first name, last name |
| MemberSearch.OrderedRanksAscend | fitness/public/ajax/search-members.php:52-59 | in an ordered list, ranks never decrease |
| MemberSearch.SearchRows | fitness/public/ajax/search-members.php:61 | at most 10 rows |
| MemberSearch.SearchRowsAreOrderedMatches | fitness/public/ajax/search-members.php:46-61 | the rows are ordered and every row is a matching member |
| MemberSearch.SearchRowsComplete | fitness/public/ajax/search-members.php:61 | with at most 10 matches all of them are returned; with more, exactly 10 |
| MemberSearch.SearchRowsKeepBestRanked | fitness/public/ajax/search-members.php:52-61 | a matching member cut off by the limit ranks no better than any returned row |
| MemberSearch.VisitCount | fitness/public/ajax/search-members.php:44 | the visit count is at most the number of attendance rows, and zero exactly when the member has no attendance row |
| MemberSearch.VisitCountIsCount | fitness/public/ajax/search-members.php:44 | the visit count is the COUNT(*) of the member's attendance rows: the number of times the member's id occurs in the member_id column |
| MemberSearch.Entry | fitness/public/ajax/search-members.php:76-86 | a result carries the id, full name and email, the phone or 'N/A', the status badge and the visit count |
| MemberSearch.FormatResults | fitness/public/ajax/search-members.php:74-87 | the formatting loop keeps count and order, one entry per row |
| MemberSearch.SearchMembers | fitness/public/ajax/search-members.php:10-101 | 403 exactly for non-AJAX requests, 401 exactly for an AJAX request without a user. A trimmed query under two characters gives no results without querying. An authorised request gives results unless the query throws, and fails exactly when it throws; the results are the formatted first 10 ordered matches |
| PlanManagement.ExerciseOf | fitness/public/workouts/manage.php:122-130 | a posted exercise with its defaults: 3 sets, '8-12' reps, 60 s rest, day 1 |
| PlanManagement.Collected | fitness/public/workouts/manage.php:118-133 | at most one exercise per posted row, and every kept exercise has a non-empty name |
| PlanManagement.NothingCollected | fitness/public/workouts/manage.php:119-133 | no exercise is collected exactly when every posted name is empty after trimming |
| PlanManagement.CollectedDistributes | fitness/public/workouts/manage.php:120-132 | collection goes entry by entry, in submitted order |
| PlanManagement.CollectExercises | fitness/public/workouts/manage.php:118-133 | the collecting loop computes exactly `Collected` |
| PlanManagement.FormOf | fitness/public/workouts/manage.php:107-115 | the posted form with its defaults: 'Beginner', 4 weeks, trimmed name |
| PlanManagement.LoadedForm | fitness/public/workouts/manage.php:82-96 | edit loads the plan; copy appends ' (Copy)' to its name |
| PlanManagement.MayChange | fitness/public/workouts/manage.php:44-48 | an admin may change any plan; a trainer may not change a plan without a creator (and may change only their own) |
| PlanManagement.PlanInUse | fitness/public/workouts/manage.php:54-56 | the plan is in use exactly when some member has an Active assignment of it |
| PlanManagement.ValidatePlan | fitness/public/workouts/manage.php:136-146 | each error is reported exactly when its condition holds; no errors exactly when the name is set, the duration positive and an exercise given |
| PlanManagement.ExercisesOf | fitness/public/workouts/manage.php:180-181 | the exercises of a plan are the data of exactly the rows whose workout_plan_id is the plan (the rows that DELETE selects), kept in table order |
| PlanManagement.ExercisesOfDistributes | fitness/public/workouts/manage.php:211-230 | the exercises of the table are those of its front part followed by those of the rest, so rows inserted later come later |
| PlanManagement.WithoutPlan | fitness/public/workouts/manage.php:180-181 | `DELETE FROM workout_exercises WHERE workout_plan_id = ?` keeps only other plans' rows |
| PlanManagement.ExercisesOfWithoutPlan | fitness/public/workouts/manage.php:180-181 | after that delete the plan has no exercises and other plans keep theirs |
| PlanManagement.Appended | fitness/public/workouts/manage.php:211-230 | the insert loop keeps every existing row and adds one row per exercise |
| PlanManagement.ExercisesOfAppended | fitness/public/workouts/manage.php:211-230 | the inserted exercises belong to the saved plan, in order, and to no other |
| PlanManagement.Edited | fitness/public/workouts/manage.php:155-177 | the edited plan keeps its id and creator and takes the form's values |
| PlanManagement.EditById | fitness/public/workouts/manage.php:155-177 | only the plan with that id is edited |
| PlanManagement.NewPlan | fitness/public/workouts/manage.php:187-205 | the inserted plan row carries the form's fields and the given creator |
| PlanManagement.SaveReplacesExercises | fitness/public/workouts/manage.php:153-230 | after a save the saved plan's exercises are exactly the submitted list, and other plans' exercises are unchanged |
| PlanManagement.NoExercisesOfFreshPlan | fitness/public/workouts/manage.php:185-207 | a newly created plan starts with no exercises |
| PlanManagement.EditKeepsOtherPlans | fitness/public/workouts/manage.php:155-177 | editing keeps ids distinct and leaves other plans unchanged |
| PlanManagement.DeletedPlan | fitness/public/workouts/manage.php:64-70 | after a delete neither the plan nor its exercises remain; assignments and members are untouched |
| PlanManagement.DeletePlan | fitness/public/workouts/manage.php:51-79 | refused, with no change, exactly when the plan has an Active assignment; otherwise its exercises and the plan are removed |
| PlanManagement.InsertExercises | fitness/public/workouts/manage.php:211-230 | the insert loop appends the submitted exercises under the plan id and changes nothing else |
| PlanManagement.SavePlan | fitness/public/workouts/manage.php:150-232 | the committed transaction: edit or create the plan, then replace its exercises; the invariant is kept |
| PlanManagement.ManagePlan | fitness/public/workouts/manage.php:6-247 | staff only. Edit, copy and delete need an existing plan id. A trainer may change only their own plans. A permitted delete succeeds exactly when no member follows the plan, as `DeletePlan` states, and is refused otherwise. Any other permitted GET shows the loaded form. A permitted POST is rejected exactly when a validation error occurs, fails exactly when the valid save is rolled back, and otherwise saves. Rejections and rollbacks write nothing. A save follows `SavePlan`, with the creator being the trainer or none for admins |
| Registration.SplitName | fitness/public/register.php:92-94 | the first name has no space; with a space, first + ' ' + last is the full name; without one, the last name is empty |
| Registration.SplitNameAtFirstSpace | fitness/public/register.php:92-94 | the split happens at the first space |
| Registration.UsernameErrors | fitness/public/register.php:34-40 | exactly one of required / too short / invalid characters, or none exactly when the username is non-empty, at least 3 long and only letters, digits and underscores |
| Registration.EmailErrors | fitness/public/register.php:42-46 | required, invalid, or none exactly when present and accepted by the validator |
| Registration.PasswordLengthErrors | fitness/public/register.php:52-56 | required, too short, or none exactly when at least 6 characters |
| Registration.MismatchErrors | fitness/public/register.php:58-60 | a mismatch error exactly when password and confirmation differ |
| Registration.ValidateFields | fitness/public/register.php:33-60 | the error list built step by step is every field's errors in page order, and empty exactly when every field is valid |
| Registration.ErrorsAccumulate | fitness/public/register.php:48-60 | errors of different fields are all reported together, the mismatch independently of the length check |
| Registration.NullIfEmpty | fitness/public/register.php:110-111 | `?: null` gives NULL exactly for an empty value |
| Registration.NewMember | fitness/public/register.php:96-112 | the new member is Active, joined today and linked to the new user; first and last name are `SplitName`'s split of the full name; e-mail and phone are the form's; an empty date of birth or gender is stored as NULL |
| Registration.NewUser | fitness/public/register.php:79-88 | the new user has the form's username and e-mail, the password hash, role 'member' and status 'active' |
| Registration.Taken | fitness/public/register.php:63-69 | any user with the same username or the same e-mail makes the registration a clash; an empty users table never does |
| Registration.FormOf | fitness/public/register.php:24-31 | username, email, name and phone are trimmed; the password is not |
| Registration.Register | fitness/public/register.php:6-123 | a logged-in user is sent away; a GET shows the form, exactly. A POST with invalid fields is rejected with exactly the field errors; the uniqueness check runs only when the fields are valid, and a clash is rejected with 'already exists'; a rolled-back transaction is reported as a failure. Any error or rollback writes nothing. Success creates exactly one user (member, active) and one Active member linked to it, and nothing else |
| TrainerDeletion.ClearTrainer | fitness/public/trainers/delete.php:36-37 | exactly the rows with that trainer lose it; no row refers to the trainer afterwards; every session keeps its id, member and times |
| TrainerDeletion.HasAssigned | fitness/public/trainers/delete.php:28-32 | a trainer with a user account who assigned any plan has assignments; one without a user account never has |
| TrainerDeletion.ClearTrainerKeepsVisits | fitness/public/trainers/delete.php:35-37 | apart from the trainer reference every attendance row is unchanged |
| TrainerDeletion.Deleted | fitness/public/trainers/delete.php:36-44 | after the deletion no trainer row has that id and no attendance row refers to it; users, assignments and members are untouched |
| TrainerDeletion.DeleteTrainer | fitness/public/trainers/delete.php:6-55 | admin only. A missing or non-numeric id, or an unknown trainer, gives its error. A trainer whose user account assigned any plan is refused. Refusals and rollbacks change nothing. Otherwise the attendance references are cleared and the trainer row removed, keeping the user account |

## Left out

- DB exceptions with no transaction.
  - The checkout UPDATE is modelled only as "nothing changes".
  - A failed notification insert on check-in is a parameter: the visit stands and no
    notification row is stored, as `create_notification` swallows the exception. The message
    the page shows is the same either way.
  - The plan delete runs without a transaction, so an exception between its two DELETEs would
    leave the exercises gone and the plan in place. The model treats the two as one step.
  - An exception in the AJAX endpoints (the 500 responses) is not modelled for
    validate-membership.
- Text comparison in SQL is modelled as exact, ignoring the database's case-insensitive
  collation. `LIKE` is case-sensitive substring search that ignores `%`/`_` wildcards in the
  query. The `=` comparisons of the registration's uniqueness check (`Taken`) are exact equality,
  so "Bob" and "bob" would clash in the database while the model accepts the second. Name
  ordering is plain character order.
- Foreign-key actions are not modelled: the schema scripts are not part of this model.
  `PlanManagement.DeletedPlan` keeps the deleted plan's Completed member_workouts rows untouched;
  the database may instead cascade them away, or refuse the plan DELETE after the exercises are
  already gone.
- Output formatting is not modelled: `htmlspecialchars`, `format_date`, `format_datetime`,
  `calculate_age`, JSON encoding and the message texts (messages become outcome constructors).
- PHP's `(int)` cast of a non-numeric string is not modelled. Inputs are taken after the cast.
  `strlen` counts bytes, while the model counts characters.
- Time zones and daylight saving are not modelled. A timestamp is seconds since 1970 UTC, and a
  day is 86400 seconds. Timestamps are seconds rather than minutes so that the rounding
  difference between the two check-outs can be stated.
- Concurrency is not modelled: the model runs one request at a time, so the double check-in race
  and any locking are out of scope.
- Auto-increment is modelled as `NextId`, above every current id. The real counter also skips
  the ids of deleted rows.
- Assignment statuses other than Active and Completed are not modelled; the scripts never write
  them.
- `updated_at` columns are not modelled.
- The dropdown queries that only feed the HTML forms are not modelled.
- The exercise list shown when a plan is edited is not modelled. Its query orders by day number
  and id; `ExercisesOf` keeps table order and describes the stored rows, not that list.
- The workout type of an automatic check-in by the validation endpoint is the column default,
  which the schema scripts set; that is not part of this model, and `AutoCheckIn` stores "".
- Uniqueness of ids in the workout_exercises, payments, notifications and audit_logs tables is
  not part of `Valid()`. The pages never look those rows up by id; new rows still get `NextId`.
- The `save_and_continue` redirect target is not modelled.
- The `filter_var` email validator is the boolean parameter `emailValid`. `password_hash` and
  `random_bytes` are parameters.
- Renew takes durations that are non-negative integers. Other posted durations are handed to
  `strtotime` as text and are not modelled.
- MemberSearch.SearchRows: ties in rank, first name and last name are ordered by insertion. The
  database leaves that order unspecified.
- PlanStart.StartPlan does not check that the plan exists, as the script does not; a foreign-key
  failure becomes `StartFailed` through `dbFails`.
- Payments.AddPayment: the posted payment date is taken as a day, and the amount as the trimmed
  text. Arbitrary date strings and decimal parsing are not modelled.
- Notification and audit-log delivery are modelled only as "one row appended".

## Findings

| source | as written | input that shows it | evidently intended | confidence | as-written member | corrected member |
|---|---|---|---|---|---|---|
| fitness/public/workouts/stop-plan.php:28-47 | the lookup fetches one row of the member and plan without filtering on status, and refuses when that row is not Active | a member who stopped plan 3 and started it again: rows [Completed, Active] for member 7 and plan 3; the lookup returns the Completed row, the page says the plan is already Completed, and the Active assignment can never be stopped | the check should look at the pair's Active row when there is one | medium (the row order of a query without ORDER BY is up to the database; the model takes table order), not executed | PlanStop.RestartedPlanCannotBeStopped | PlanStop.StopPlan |
