/**
 * The read-only handlers: fetching rows by id, listing them through equality filters,
 * and the two analytics reports built from row counts.
 */
module Queries {
  import opened Wrappers
  import opened Model

  /** `GET /api/users`: every user's public form, in table order. */
  function ListUsers(t: Tables): (r: seq<Dict>)
    ensures |r| == |t.users|
    ensures forall i :: 0 <= i < |r| ==> r[i] == UserToDict(t.users[i]) && PasswordKey !in r[i]
  {
    seq(|t.users|, i requires 0 <= i < |t.users| => UserToDict(t.users[i]))
  }

  /** `GET /api/users/<id>`. */
  function GetUser(t: Tables, id: Id): (r: Reply<Dict>)
    ensures r.Fail? <==> id !in UserIds(t.users)
    ensures r.Fail? ==> r.failure == UserNotFound
    ensures r.Ok? ==> exists u :: u in t.users && u.id == id && r.value == UserToDict(u)
  {
    match FindUser(t.users, id)
    case None => Fail(UserNotFound)
    case Some(u) => Ok(UserToDict(u))
  }

  /** The conjunction of equality tests one `filter_by(...)` puts on the attendance table;
      `None` leaves that column unconstrained. */
  datatype Query = Query(date: Option<Date>, userId: Option<Id>, status: Option<string>)

  const Everything := Query(None, None, None)

  predicate Matches(r: Attendance, q: Query) {
    && (q.date.Some? ==> r.date == q.date.value)
    && (q.userId.Some? ==> r.userId == q.userId.value)
    && (q.status.Some? ==> r.status == q.status.value)
  }

  /** `Attendance.query.filter_by(...).all()`: the matching rows in table order. */
  function Select(rs: seq<Attendance>, q: Query): (res: seq<Attendance>)
    ensures |res| <= |rs|
    ensures forall r :: r in res <==> r in rs && Matches(r, q)
    ensures q == Everything ==> res == rs
  {
    if |rs| == 0 then []
    else
      assert rs == [rs[0]] + rs[1..];
      (if Matches(rs[0], q) then [rs[0]] else []) + Select(rs[1..], q)
  }

  /** A selection keeps each matching row exactly as many times as the table holds it and
      drops every other row, so `|Select(rs, q)|` is the number of matching rows. */
  lemma {:induction false} SelectMultiplicity(rs: seq<Attendance>, q: Query)
    ensures forall r :: multiset(Select(rs, q))[r] == if Matches(r, q) then multiset(rs)[r] else 0
  {
    if |rs| > 0 {
      SelectMultiplicity(rs[1..], q);
      assert rs == [rs[0]] + rs[1..];
      assert multiset(rs) == multiset([rs[0]]) + multiset(rs[1..]);
    }
  }

  /** Filtering by date and by user at once is filtering by one, then by the other. */
  lemma {:induction false} SelectIntersects(rs: seq<Attendance>, d: Option<Date>, u: Option<Id>, s: Option<string>)
    ensures Select(rs, Query(d, u, s)) == Select(Select(rs, Query(d, None, None)), Query(None, u, s))
  {
    if |rs| > 0 {
      SelectIntersects(rs[1..], d, u, s);
      var byDate := Select(rs, Query(d, None, None));
      if Matches(rs[0], Query(d, None, None)) {
        assert byDate == [rs[0]] + Select(rs[1..], Query(d, None, None));
        assert byDate[0] == rs[0] && byDate[1..] == Select(rs[1..], Query(d, None, None));
      } else {
        assert byDate == Select(rs[1..], Query(d, None, None));
      }
    }
  }

  /** The `date` query argument: absent or empty, a valid `YYYY-MM-DD` day, or text
      `strptime` rejects. */
  datatype DateArg = NoDate | BadDate | OnDate(day: Date)

  /** The `user_id` query argument, which reaches `filter_by` as text: absent or empty, text
      SQLite reads as the integer `id`, or text that is no integer and so equals no
      `user_id` of the INTEGER column. */
  datatype UserArg = AnyUser | ForUser(id: Id) | NotNumeric

  function ListFilter(date: DateArg, user: UserArg): Query {
    Query(if date.OnDate? then Some(date.day) else None,
          if user.ForUser? then Some(user.id) else None, None)
  }

  /** The owner's username for each row (the `self.user.username` join of `to_dict`);
      `None` when some row's owner is missing, where `to_dict` raises. */
  function Render(rows: seq<Attendance>, us: seq<User>): (res: Option<seq<Dict>>)
    ensures res.Some? <==> forall r :: r in rows ==> r.userId in UserIds(us)
    ensures res.Some? ==>
      && |res.value| == |rows|
      && forall k :: 0 <= k < |rows| ==>
           res.value[k] == AttendanceToDict(rows[k], FindUser(us, rows[k].userId).value.username)
  {
    if |rows| == 0 then Some([])
    else
      assert rows == [rows[0]] + rows[1..];
      match FindUser(us, rows[0].userId)
      case None => None
      case Some(owner) =>
        match Render(rows[1..], us)
        case None => None
        case Some(rest) => Some([AttendanceToDict(rows[0], owner.username)] + rest)
  }

  /** On well-formed tables every selected row has a live owner, so rendering succeeds. */
  lemma SelectedOwnersExist(t: Tables, q: Query)
    ensures Wellformed(t) ==> Render(Select(t.records, q), t.users).Some?
  {
  }

  /** `GET /api/attendance?date=..&user_id=..`. The date is parsed first, so a bad date
      is a 500 whatever the user argument. */
  function ListAttendance(t: Tables, date: DateArg, user: UserArg): (r: Reply<seq<Dict>>)
    ensures date.BadDate? ==> r == Fail(ServerError)
    ensures r.Fail? ==> r.failure == ServerError
    ensures !date.BadDate? && user.NotNumeric? ==> r == Ok([])
    ensures r.Ok? && !user.NotNumeric? ==>
      var rows := Select(t.records, ListFilter(date, user));
      && |r.value| == |rows|
      && Render(rows, t.users) == Some(r.value)
    ensures !date.BadDate? && Wellformed(t) ==> r.Ok?
  {
    if date.BadDate? then Fail(ServerError)
    else if user.NotNumeric? then Ok([])
    else
      var rows := Select(t.records, ListFilter(date, user));
      SelectedOwnersExist(t, ListFilter(date, user));
      match Render(rows, t.users)
      case None => Fail(ServerError)
      case Some(dicts) => Ok(dicts)
  }

  /** `GET /api/attendance/<id>`. */
  function GetRecord(t: Tables, id: Id): (r: Reply<Dict>)
    ensures r == Fail(RecordNotFound) <==> id !in RecordIds(t.records)
    ensures r.Ok? ==> exists k, u :: 0 <= k < |t.records| && t.records[k].id == id && u in t.users &&
                                    u.id == t.records[k].userId && r.value == AttendanceToDict(t.records[k], u.username)
    ensures Wellformed(t) && id in RecordIds(t.records) ==> r.Ok?
  {
    match IndexOf(RecordIds(t.records), id)
    case None => Fail(RecordNotFound)
    case Some(k) =>
      match FindUser(t.users, t.records[k].userId)
      case None => Fail(ServerError)
      case Some(owner) =>
        assert t.records[k] in t.records;
        Ok(AttendanceToDict(t.records[k], owner.username))
  }

  /** `present / whole * 100` as an exact rational, 0 when `whole` is 0; the rounding to
      two decimals is not modelled. */
  function Percent(part: nat, whole: nat): (p: real)
    ensures whole == 0 ==> p == 0.0
    ensures whole > 0 ==> p * (whole as real) == (part as real) * 100.0
    ensures part <= whole ==> 0.0 <= p <= 100.0
  {
    if whole > 0 then (part as real) / (whole as real) * 100.0 else 0.0
  }

  /** The number of rows of `rs` (all, or one user's) with the given status. */
  function StatusCount(rs: seq<Attendance>, userId: Option<Id>, status: string): nat {
    |Select(rs, Query(None, userId, Some(status)))|
  }

  /** A row has one status, so the three counted statuses never add up to more than the rows. */
  lemma {:induction false} StatusCountsBounded(rs: seq<Attendance>, userId: Option<Id>)
    ensures StatusCount(rs, userId, "present") + StatusCount(rs, userId, "absent") +
            StatusCount(rs, userId, "late") <= |Select(rs, Query(None, userId, None))|
  {
    if |rs| > 0 {
      StatusCountsBounded(rs[1..], userId);
    }
  }

  datatype Summary = Summary(totalUsers: nat, totalPresent: nat, totalAbsent: nat,
                             totalLate: nat, attendanceRate: real)

  /** `GET /api/analytics/summary`. */
  function GetSummary(t: Tables): (s: Summary)
    ensures s.totalUsers == |t.users|
    ensures s.totalPresent == |Select(t.records, Query(None, None, Some("present")))|
    ensures s.totalAbsent == |Select(t.records, Query(None, None, Some("absent")))|
    ensures s.totalLate == |Select(t.records, Query(None, None, Some("late")))|
    ensures s.totalPresent + s.totalAbsent + s.totalLate <= |t.records|
    ensures s.totalPresent + s.totalAbsent == 0 ==> s.attendanceRate == 0.0
    ensures s.attendanceRate == Percent(s.totalPresent, s.totalPresent + s.totalAbsent)
    ensures 0.0 <= s.attendanceRate <= 100.0
  {
    var present := StatusCount(t.records, None, "present");
    var absent := StatusCount(t.records, None, "absent");
    var late := StatusCount(t.records, None, "late");
    StatusCountsBounded(t.records, None);
    Summary(|t.users|, present, absent, late, Percent(present, present + absent))
  }

  datatype UserStats = UserStats(username: string, totalRecords: nat, present: nat,
                                 absent: nat, late: nat, attendancePercentage: real)

  /** `GET /api/analytics/user/<id>`. */
  function GetUserAnalytics(t: Tables, id: Id): (r: Reply<UserStats>)
    ensures r.Fail? <==> id !in UserIds(t.users)
    ensures r.Fail? ==> r.failure == UserNotFound
    ensures r.Ok? ==>
      var s := r.value;
      && s.username == FindUser(t.users, id).value.username
      && s.present == |Select(t.records, Query(None, Some(id), Some("present")))|
      && s.absent == |Select(t.records, Query(None, Some(id), Some("absent")))|
      && s.late == |Select(t.records, Query(None, Some(id), Some("late")))|
      && s.totalRecords == |Select(t.records, Query(None, Some(id), None))|
      && s.present + s.absent + s.late <= s.totalRecords
      && (s.totalRecords == 0 ==> s.attendancePercentage == 0.0)
      && s.attendancePercentage == Percent(s.present, s.totalRecords)
      && 0.0 <= s.attendancePercentage <= 100.0
  {
    match FindUser(t.users, id)
    case None => Fail(UserNotFound)
    case Some(u) =>
      var total := |Select(t.records, Query(None, Some(id), None))|;
      var present := StatusCount(t.records, Some(id), "present");
      var absent := StatusCount(t.records, Some(id), "absent");
      var late := StatusCount(t.records, Some(id), "late");
      StatusCountsBounded(t.records, Some(id));
      Ok(UserStats(u.username, total, present, absent, late, Percent(present, total)))
  }

  /** The per-user report counts exactly the rows the per-user listing returns. */
  lemma AnalyticsAgreesWithListing(t: Tables, id: Id)
    requires Wellformed(t) && id in UserIds(t.users)
    ensures ListAttendance(t, NoDate, ForUser(id)).Ok?
    ensures |ListAttendance(t, NoDate, ForUser(id)).value| == GetUserAnalytics(t, id).value.totalRecords
  {
  }
}
