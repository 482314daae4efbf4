/**
 * `mark_attendance` decides between check-in and check-out by looking only at the FIRST
 * row of the day. Once that row is closed, every later mark of the day is a check-in, so
 * a user who checks in a second time can never check out again that day, and each further
 * mark opens one more session. The intended rule keeps at most one open session per user
 * and day; `MarkFixed` looks for an open row of the day instead, and keeps that rule.
 */
module Findings {
  import opened Wrappers
  import opened Model
  import opened Handlers

  /** At most one open session per (user, day). */
  ghost predicate AtMostOneOpen(rs: seq<Attendance>) {
    forall i, j :: 0 <= i < j < |rs| && rs[i].checkOut.None? && rs[j].checkOut.None? ==>
      rs[i].userId != rs[j].userId || rs[i].date != rs[j].date
  }

  /** As written: from tables that keep the rule, four marks in one day by a user with no row
      that day leave two open sessions for that user and day. */
  lemma MarkAsWrittenOpensTwo(t: Tables, req: MarkRequest, today: Date,
                              n1: Timestamp, n2: Timestamp, n3: Timestamp, n4: Timestamp)
    requires AtMostOneOpen(t.records)
    requires req.userId.Some? && req.userId.value in UserIds(t.users)
    requires FirstOn(t.records, req.userId.value, today).None?
    ensures
      var s3 := Mark(Mark(Mark(t, req, today, n1).1, req, today, n2).1, req, today, n3);
      var s4 := Mark(s3.1, req, today, n4);
      && s4.0 == Ok(CheckedIn)
      && !AtMostOneOpen(s4.1.records)
  {
    var uid := req.userId.value;
    var n := |t.records|;
    MarkToggles(t, req, today, n1, n2, n3);
    var s1 := Mark(t, req, today, n1);
    var s2 := Mark(s1.1, req, today, n2);
    var s3 := Mark(s2.1, req, today, n3);
    FirstOnAppend(t.records, s1.1.records[n], uid, today);
    FirstOnCheckOut(s1.1.records, n, n2, uid, today);
    FirstOnAppend(s2.1.records, s3.1.records[n + 1], uid, today);
    assert FirstOn(s3.1.records, uid, today) == Some(n);
    var s4 := Mark(s3.1, req, today, n4);
    var rs := s4.1.records;
    assert rs[n + 1] == s3.1.records[n + 1];
    assert rs[n + 1].checkOut.None? && rs[n + 2].checkOut.None?;
    assert rs[n + 1].userId == rs[n + 2].userId && rs[n + 1].date == rs[n + 2].date;
  }

  predicate OpenOn(r: Attendance, uid: Id, day: Date) {
    SameDay(r, uid, day) && r.checkOut.None?
  }

  ghost predicate HasOpen(rs: seq<Attendance>, uid: Id, day: Date) {
    exists k :: 0 <= k < |rs| && OpenOn(rs[k], uid, day)
  }

  /** `Attendance.query.filter_by(user_id=uid, date=day, check_out_time=None).first()`. */
  function FirstOpenOn(rs: seq<Attendance>, uid: Id, day: Date): (r: Option<nat>)
    ensures r.None? <==> !HasOpen(rs, uid, day)
    ensures r.Some? ==> r.value < |rs| && OpenOn(rs[r.value], uid, day) &&
                        forall k :: 0 <= k < r.value ==> !OpenOn(rs[k], uid, day)
  {
    if |rs| == 0 then None
    else if OpenOn(rs[0], uid, day) then Some(0)
    else match FirstOpenOn(rs[1..], uid, day)
      case None =>
        assert forall k :: 1 <= k < |rs| ==> rs[k] == rs[1..][k - 1];
        None
      case Some(k) => Some(k + 1)
  }

  /** Corrected: the toggle closes the day's open session when there is one, and opens a
      session otherwise. */
  function MarkFixed(t: Tables, req: MarkRequest, today: Date, now: Timestamp): (out: (Reply<Marked>, Tables))
    ensures out.1.users == t.users
    ensures out.0.Fail? ==> out.1 == t
    ensures req.userId.None? ==> out.0 == Fail(UserIdRequired)
    ensures req.userId.Some? && req.userId.value !in UserIds(t.users) ==> out.0 == Fail(UserNotFound)
    ensures out.0.Ok? <==> req.userId.Some? && req.userId.value in UserIds(t.users)
  {
    if req.userId.None? then (Fail(UserIdRequired), t)
    else
      var uid := req.userId.value;
      if uid !in UserIds(t.users) then (Fail(UserNotFound), t)
      else match FirstOpenOn(t.records, uid, today)
        case Some(i) =>
          (Ok(CheckedOut), Tables(t.users, t.records[i := t.records[i].(checkOut := Some(now))]))
        case None =>
          (Ok(CheckedIn), Tables(t.users, t.records + [CheckInRow(t.records, uid, req, today, now)]))
  }

  /** The corrected toggle keeps at most one open session per user and day, checks out
      exactly when the user has an open session today, and flips whether they have one. */
  lemma MarkFixedKeepsOneOpen(t: Tables, req: MarkRequest, today: Date, now: Timestamp)
    requires AtMostOneOpen(t.records)
    ensures
      var out := MarkFixed(t, req, today, now);
      && AtMostOneOpen(out.1.records)
      && (out.0 == Ok(CheckedOut) <==> out.0.Ok? && HasOpen(t.records, req.userId.value, today))
      && (out.0.Ok? ==>
            (HasOpen(out.1.records, req.userId.value, today) <==> !HasOpen(t.records, req.userId.value, today)))
  {
    var out := MarkFixed(t, req, today, now);
    if out.0.Ok? {
      var uid := req.userId.value;
      var rs := out.1.records;
      match FirstOpenOn(t.records, uid, today)
      case Some(i) =>
        assert forall k :: 0 <= k < |rs| && k != i ==> rs[k] == t.records[k];
        assert rs[i].checkOut.Some?;
      case None =>
        var row := rs[|t.records|];
        assert forall k :: 0 <= k < |t.records| ==> rs[k] == t.records[k];
        assert OpenOn(row, uid, today);
    }
  }
}
