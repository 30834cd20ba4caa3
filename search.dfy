/** `public/ajax/search-members.php`: the member search behind the front desk's search box.
    Members matching the query in a name, the e-mail or the phone are ranked by where the
    query matched, ordered by rank and name, and the first ten are returned with their status
    badge and visit count. */
module MemberSearch {
  import opened Php
  import opened Calendar
  import opened Schema
  import opened Functions
  import MembershipValidation

  /** `CONCAT(first_name, ' ', last_name)`. */
  function FullName(m: Member): string {
    m.firstName + " " + m.lastName
  }

  /** The WHERE clause: the query occurs in the first name, the last name, the e-mail, the phone
      (a NULL phone matches nothing) or the full name. */
  predicate Matches(m: Member, q: string)
    ensures Matches(m, q) <==> Rank(m, q) < 5 || Contains(FullName(m), q)
  {
    || Contains(m.firstName, q)
    || Contains(m.lastName, q)
    || Contains(m.email, q)
    || (m.phone.Some? && Contains(m.phone.value, q))
    || Contains(FullName(m), q)
  }

  /** The CASE of the ORDER BY: where the query matched first. */
  function Rank(m: Member, q: string): (r: int)
    ensures 1 <= r <= 5
    ensures r == 1 <==> Contains(m.firstName, q)
    ensures r == 5 <==> !Contains(m.firstName, q) && !Contains(m.lastName, q) && !Contains(m.email, q)
                        && !(m.phone.Some? && Contains(m.phone.value, q))
  {
    if Contains(m.firstName, q) then 1
    else if Contains(m.lastName, q) then 2
    else if Contains(m.email, q) then 3
    else if m.phone.Some? && Contains(m.phone.value, q) then 4
    else 5
  }

  /** The members the WHERE clause keeps, in table order. */
  function Matching(members: seq<Member>, q: string): (r: seq<Member>)
    ensures forall i :: 0 <= i < |r| ==> Matches(r[i], q)
    ensures multiset(r) <= multiset(members)
    ensures forall m :: m in members && Matches(m, q) <==> m in r
  {
    if members == [] then []
    else
      var rest := Matching(members[1..], q);
      assert members == [members[0]] + members[1..];
      if Matches(members[0], q) then [members[0]] + rest else rest
  }

  /** The ORDER BY: `a` may come before `b` when its rank is lower, or the rank is equal and its
      (first name, last name) is not later. */
  predicate NotAfter(a: Member, b: Member, q: string) {
    || Rank(a, q) < Rank(b, q)
    || (Rank(a, q) == Rank(b, q)
        && ((a.firstName != b.firstName && LexLe(a.firstName, b.firstName))
            || (a.firstName == b.firstName && LexLe(a.lastName, b.lastName))))
  }

  lemma NotAfterTotal(a: Member, b: Member, q: string)
    ensures NotAfter(a, b, q) || NotAfter(b, a, q)
  {
    LexLeTotal(a.firstName, b.firstName);
    LexLeTotal(a.lastName, b.lastName);
  }

  predicate Ordered(s: seq<Member>, q: string) {
    forall i :: 0 <= i < |s| - 1 ==> NotAfter(s[i], s[i + 1], q)
  }

  /** One step of the sort: `m` placed before the first element it does not come after. */
  function Insert(m: Member, s: seq<Member>, q: string): (r: seq<Member>)
    requires Ordered(s, q)
    ensures Ordered(r, q)
    ensures multiset(r) == multiset(s) + multiset{m}
    ensures |r| == |s| + 1
    ensures r != [] && (r[0] == m || (s != [] && r[0] == s[0]))
  {
    if s == [] || NotAfter(m, s[0], q) then [m] + s
    else
      NotAfterTotal(m, s[0], q);
      var rest := Insert(m, s[1..], q);
      assert s == [s[0]] + s[1..];
      [s[0]] + rest
  }

  /** The ordered result of the query, before the LIMIT. */
  function Sort(s: seq<Member>, q: string): (r: seq<Member>)
    ensures Ordered(r, q)
    ensures multiset(r) == multiset(s)
  {
    if s == [] then []
    else
      assert s == [s[0]] + s[1..];
      Insert(s[0], Sort(s[1..], q), q)
  }

  /** In an ordered result the ranks never go down, however far apart two rows are. */
  lemma {:induction false} OrderedRanksAscend(s: seq<Member>, q: string, i: nat, j: nat)
    requires Ordered(s, q) && i <= j < |s|
    ensures Rank(s[i], q) <= Rank(s[j], q)
  {
    if i < j {
      OrderedRanksAscend(s, q, i, j - 1);
    }
  }

  /** `SELECT ... LIMIT 10` before formatting. */
  function SearchRows(members: seq<Member>, q: string): (r: seq<Member>)
    ensures |r| <= 10
  {
    var sorted := Sort(Matching(members, q), q);
    if |sorted| <= 10 then sorted else sorted[..10]
  }

  /** Every row the query returns is a member of the table that matches the query, and the
      rows come in the ORDER BY order. */
  lemma SearchRowsAreOrderedMatches(members: seq<Member>, q: string)
    ensures Ordered(SearchRows(members, q), q)
    ensures forall i :: 0 <= i < |SearchRows(members, q)| ==>
              SearchRows(members, q)[i] in members && Matches(SearchRows(members, q)[i], q)
  {
    var sorted := Sort(Matching(members, q), q);
    var r := SearchRows(members, q);
    forall i | 0 <= i < |r|
      ensures r[i] in members && Matches(r[i], q)
    {
      assert r[i] in multiset(sorted);
    }
  }

  /** Up to ten matches are all returned; beyond that exactly ten are. */
  lemma SearchRowsComplete(members: seq<Member>, q: string)
    ensures |Matching(members, q)| <= 10 ==> multiset(SearchRows(members, q)) == multiset(Matching(members, q))
    ensures |Matching(members, q)| > 10 ==> |SearchRows(members, q)| == 10
  {
    var matching := Matching(members, q);
    var sorted := Sort(matching, q);
    assert |sorted| == |matching| by {
      assert |multiset(sorted)| == |multiset(matching)|;
    }
  }

  /** The LIMIT never drops a match that ranks better than a row it keeps. */
  lemma SearchRowsKeepBestRanked(members: seq<Member>, q: string, m: Member, i: nat)
    requires m in Matching(members, q) && m !in SearchRows(members, q)
    requires i < |SearchRows(members, q)|
    ensures Rank(SearchRows(members, q)[i], q) <= Rank(m, q)
  {
    var sorted := Sort(Matching(members, q), q);
    var r := SearchRows(members, q);
    assert m in multiset(sorted);
    var j :| 0 <= j < |sorted| && sorted[j] == m;
    assert j >= |r|;
    OrderedRanksAscend(sorted, q, i, j);
  }

  /** The `member_id` column of the attendance table, row by row. */
  function MemberIds(rows: seq<Attendance>): (ids: seq<int>)
    ensures |ids| == |rows|
    ensures forall i :: 0 <= i < |rows| ==> ids[i] == rows[i].memberId
  {
    if rows == [] then [] else [rows[0].memberId] + MemberIds(rows[1..])
  }

  /** The number of attendance rows of a member (`total_visits`). */
  function VisitCount(rows: seq<Attendance>, memberId: int): (n: nat)
    ensures n <= |rows|
    ensures n == 0 <==> forall i :: 0 <= i < |rows| ==> rows[i].memberId != memberId
  {
    if rows == [] then 0
    else
      var rest := VisitCount(rows[1..], memberId);
      assert forall i :: 1 <= i < |rows| ==> rows[i] == rows[1..][i - 1];
      (if rows[0].memberId == memberId then 1 else 0) + rest
  }

  /** The visit count is the `COUNT(*)` of the member's attendance rows: how often the member's
      id occurs in the `member_id` column. */
  lemma {:induction false} VisitCountIsCount(rows: seq<Attendance>, memberId: int)
    ensures VisitCount(rows, memberId) == multiset(MemberIds(rows))[memberId]
  {
    if rows != [] {
      VisitCountIsCount(rows[1..], memberId);
      assert MemberIds(rows) == [rows[0].memberId] + MemberIds(rows[1..]);
    }
  }

  /** One entry of the JSON result list. */
  datatype Result = Result(id: int, name: string, email: string, phone: string, status: string,
                           statusClass: string, joinDate: Day, visits: nat)

  /** The entry built for one row: a NULL phone is shown as 'N/A' and the status class is the
      status badge. */
  function Entry(m: Member, attendance: seq<Attendance>): (e: Result)
    ensures e.id == m.id && e.name == FullName(m) && e.email == m.email
    ensures e.phone == if m.phone.Some? then m.phone.value else "N/A"
    ensures e.statusClass == StatusBadge(MemberStatusName(m.status))
    ensures e.visits == VisitCount(attendance, m.id)
  {
    Result(m.id, FullName(m), m.email, if m.phone.Some? then m.phone.value else "N/A",
           MemberStatusName(m.status), StatusBadge(MemberStatusName(m.status)), m.joinDate,
           VisitCount(attendance, m.id))
  }

  /** The `foreach` that builds the result list: one entry per row, in the same order. */
  method FormatResults(rows: seq<Member>, attendance: seq<Attendance>) returns (out: seq<Result>)
    ensures |out| == |rows|
    ensures forall i :: 0 <= i < |rows| ==> out[i] == Entry(rows[i], attendance)
  {
    out := [];
    for k := 0 to |rows|
      invariant |out| == k
      invariant forall i :: 0 <= i < k ==> out[i] == Entry(rows[i], attendance)
    {
      var entry := Entry(rows[k], attendance);
      out := out + [entry];
    }
  }

  datatype Response =
    | Forbidden            // 403: not an AJAX request
    | Unauthorized         // 401: no user in the session
    | Results(results: seq<Result>)
    | SearchFailed         // 500: the query threw

  /** The whole endpoint; it reads and never writes. A trimmed query shorter than two
      characters gives an empty list without querying. */
  method SearchMembers(db: Database, session: Session, requestedWith: Option<string>, q: Option<string>,
                       dbFails: bool) returns (resp: Response)
    ensures resp == Forbidden <==> !MembershipValidation.IsAjax(requestedWith)
    ensures resp == Unauthorized <==> MembershipValidation.IsAjax(requestedWith) && session.userId.None?
    ensures MembershipValidation.IsAjax(requestedWith) && session.userId.Some? && !dbFails ==> resp.Results?
    ensures resp.Results? ==> |resp.results| <= 10
    ensures resp.Results? ==>
              var search := if q.Some? then Trim(q.value) else "";
              var rows := if |search| < 2 then [] else SearchRows(db.members, search);
              && |resp.results| == |rows|
              && forall i :: 0 <= i < |rows| ==> resp.results[i] == Entry(rows[i], db.attendance)
    ensures resp == SearchFailed <==>
              MembershipValidation.IsAjax(requestedWith) && session.userId.Some? && dbFails
              && |if q.Some? then Trim(q.value) else ""| >= 2
  {
    if !MembershipValidation.IsAjax(requestedWith) {
      return Forbidden;
    }
    if session.userId.None? {
      return Unauthorized;
    }
    var search := if q.Some? then Trim(q.value) else "";
    if |search| < 2 {
      return Results([]);
    }
    if dbFails {
      return SearchFailed;
    }
    var rows := SearchRows(db.members, search);
    var formatted := FormatResults(rows, db.attendance);
    resp := Results(formatted);
  }
}
