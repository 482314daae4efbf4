/**
 * The mutating handlers as functions from the tables before a request to the reply and
 * the tables after it. A failed request leaves both tables as they were: the handler
 * returns before writing, or the session is rolled back.
 */
module Handlers {
  import opened Wrappers
  import opened Model
  import opened Queries

  /* ---------------------------------------------------------------- users */

  /** The JSON body of `POST /api/users`; `None` is a key the body does not have. */
  datatype NewUser = NewUser(username: Option<string>, email: Option<string>,
                             password: Option<string>, role: Option<string>)

  predicate MissingRequired(req: NewUser) {
    req.username.None? || req.email.None? || req.password.None?
  }

  /** `POST /api/users`; `hash` is `generate_password_hash` and `now` the creation time. */
  function CreateUser(t: Tables, req: NewUser, hash: string -> string, now: Timestamp): (out: (Reply<User>, Tables))
    ensures out.0.Fail? ==> out.1 == t
    ensures MissingRequired(req) ==> out.0 == Fail(MissingFields)
    ensures !MissingRequired(req) && UsernameTaken(t.users, req.username.value) ==>
              out.0 == Fail(UsernameExists)
    ensures (!MissingRequired(req) && !UsernameTaken(t.users, req.username.value) &&
             EmailTaken(t.users, req.email.value)) ==> out.0 == Fail(EmailExists)
    ensures out.0.Ok? <==>
              !MissingRequired(req) && !UsernameTaken(t.users, req.username.value) &&
              !EmailTaken(t.users, req.email.value)
    ensures out.0.Ok? ==>
      var u := out.0.value;
      && out.1 == Tables(t.users + [u], t.records)
      && u.id !in UserIds(t.users)
      && u.username == req.username.value
      && u.email == req.email.value
      && u.role == (if req.role.Some? then req.role.value else "user")
      && u.passwordHash == hash(req.password.value)
      && u.createdAt == now
  {
    if MissingRequired(req) then (Fail(MissingFields), t)
    else if UsernameTaken(t.users, req.username.value) then (Fail(UsernameExists), t)
    else if EmailTaken(t.users, req.email.value) then (Fail(EmailExists), t)
    else
      var u := User(NextId(UserIds(t.users)), req.username.value, req.email.value,
                    hash(req.password.value), req.role.GetOr("user"), now);
      (Ok(u), Tables(t.users + [u], t.records))
  }

  lemma UserIdsAppend(us: seq<User>, u: User)
    ensures UserIds(us + [u]) == UserIds(us) + [u.id]
  {
    assert forall i :: 0 <= i < |us| ==> (us + [u])[i] == us[i];
  }

  lemma CreateUserPreserves(t: Tables, req: NewUser, hash: string -> string, now: Timestamp)
    requires Wellformed(t)
    ensures Wellformed(CreateUser(t, req, hash, now).1)
  {
    var out := CreateUser(t, req, hash, now);
    if out.0.Ok? {
      var u := out.0.value;
      var us := t.users + [u];
      UserIdsAppend(t.users, u);
      assert forall i :: 0 <= i < |t.users| ==> t.users[i].id == UserIds(t.users)[i] < u.id;
      assert UsersOrdered(us);
      assert UniqueLogins(us);
      assert OwnersExist(us, t.records);
    }
  }

  /** A POSTed user can be fetched back, with the username, email and role it was given. */
  lemma CreatedUserIsFetchable(t: Tables, req: NewUser, hash: string -> string, now: Timestamp)
    requires CreateUser(t, req, hash, now).0.Ok?
    ensures
      var (r, after) := CreateUser(t, req, hash, now);
      && GetUser(after, r.value.id) == Ok(UserToDict(r.value))
      && UserToDict(r.value)[UsernameKey] == JStr(req.username.value)
      && UserToDict(r.value)[EmailKey] == JStr(req.email.value)
      && UserToDict(r.value)[RoleKey] == JStr(req.role.GetOr("user"))
  {
    var (r, after) := CreateUser(t, req, hash, now);
    var u := r.value;
    UserIdsAppend(t.users, u);
    var k := IndexOf(UserIds(after.users), u.id);
    assert UserIds(after.users)[|t.users|] == u.id;
    assert k.Some?;
  }

  /** Repeating a successful POST fails with a duplicate username and stores nothing. */
  lemma CreateTwiceFails(t: Tables, req: NewUser, hash: string -> string, now: Timestamp, later: Timestamp)
    requires CreateUser(t, req, hash, now).0.Ok?
    ensures
      var after := CreateUser(t, req, hash, now).1;
      CreateUser(after, req, hash, later) == (Fail(UsernameExists), after)
  {
    var after := CreateUser(t, req, hash, now).1;
    assert after.users[|t.users|].username == req.username.value;
  }

  /** The JSON body of `PUT /api/users/<id>`; the handler reads no other key. */
  datatype UserPatch = UserPatch(username: Option<string>, email: Option<string>, role: Option<string>)

  function Patched(u: User, p: UserPatch): User {
    u.(username := p.username.GetOr(u.username), email := p.email.GetOr(u.email),
       role := p.role.GetOr(u.role))
  }

  /** Committing `u` at index `i` would break a unique column. */
  predicate Collides(us: seq<User>, i: nat, u: User) {
    exists j :: 0 <= j < |us| && j != i && (us[j].username == u.username || us[j].email == u.email)
  }

  /** `PUT /api/users/<id>`; `body == None` is a request without a JSON body. */
  function UpdateUser(t: Tables, id: Id, body: Option<UserPatch>): (out: (Reply<User>, Tables))
    ensures out.0.Fail? ==> out.1 == t
    ensures id !in UserIds(t.users) ==> out.0 == Fail(UserNotFound)
    ensures id in UserIds(t.users) && body.None? ==> out.0 == Fail(ServerError)
    ensures out.0.Ok? ==> id in UserIds(t.users) && body.Some?
    ensures id in UserIds(t.users) && body.Some? ==>
      var i := IndexOf(UserIds(t.users), id).value;
      var was := t.users[i];
      var p := body.value;
      && (out.0.Ok? <==> !Collides(t.users, i, Patched(was, p)))
      && (out.0.Fail? ==> out.0.failure == ServerError)
      && (out.0.Ok? ==>
            var u := out.0.value;
            && out.1 == Tables(t.users[i := u], t.records)
            && u.id == was.id && u.passwordHash == was.passwordHash && u.createdAt == was.createdAt
            && u.username == (if p.username.Some? then p.username.value else was.username)
            && u.email == (if p.email.Some? then p.email.value else was.email)
            && u.role == (if p.role.Some? then p.role.value else was.role))
  {
    match IndexOf(UserIds(t.users), id)
    case None => (Fail(UserNotFound), t)
    case Some(i) =>
      if body.None? then (Fail(ServerError), t)
      else
        var u := Patched(t.users[i], body.value);
        if Collides(t.users, i, u) then (Fail(ServerError), t)
        else (Ok(u), Tables(t.users[i := u], t.records))
  }

  lemma UpdateUserPreserves(t: Tables, id: Id, body: Option<UserPatch>)
    requires Wellformed(t)
    ensures Wellformed(UpdateUser(t, id, body).1)
  {
    var out := UpdateUser(t, id, body);
    if out.0.Ok? {
      var i := IndexOf(UserIds(t.users), id).value;
      assert UserIds(out.1.users) == UserIds(t.users);
    }
  }

  /** The attendance rows that survive the cascade when user `uid` is deleted. */
  function DropOwnedBy(rs: seq<Attendance>, uid: Id): (res: seq<Attendance>)
    ensures forall r :: r in res <==> r in rs && r.userId != uid
    ensures |res| <= |rs|
  {
    if |rs| == 0 then []
    else
      assert rs == [rs[0]] + rs[1..];
      (if rs[0].userId == uid then [] else [rs[0]]) + DropOwnedBy(rs[1..], uid)
  }

  /** `DELETE /api/users/<id>`; the relationship's `delete-orphan` cascade takes the
      user's attendance rows with it. */
  function DeleteUser(t: Tables, id: Id): (out: (Reply<()>, Tables))
    ensures id !in UserIds(t.users) ==> out == (Fail(UserNotFound), t)
    ensures id in UserIds(t.users) ==>
      var i := IndexOf(UserIds(t.users), id).value;
      && out.0 == Ok(())
      && out.1.users == t.users[..i] + t.users[i + 1..]
      && forall r :: r in out.1.records <==> r in t.records && r.userId != id
  {
    match IndexOf(UserIds(t.users), id)
    case None => (Fail(UserNotFound), t)
    case Some(i) => (Ok(()), Tables(t.users[..i] + t.users[i + 1..], DropOwnedBy(t.records, id)))
  }

  /** With unique ids, deleting a user removes that one user and keeps every other. */
  lemma DeleteUserRemovesExactlyOne(t: Tables, id: Id)
    requires UsersOrdered(t.users) && id in UserIds(t.users)
    ensures forall u :: u in DeleteUser(t, id).1.users <==> u in t.users && u.id != id
  {
    var i := IndexOf(UserIds(t.users), id).value;
    assert t.users[i].id == UserIds(t.users)[i];
    RemoveUserMembers(t.users, i);
  }

  lemma RemoveUserMembers(us: seq<User>, i: nat)
    requires i < |us| && UsersOrdered(us)
    ensures forall u :: u in us[..i] + us[i + 1..] <==> u in us && u.id != us[i].id
  {
    var front, back := us[..i], us[i + 1..];
    assert us == front + [us[i]] + back;
    forall u | u in front ensures u.id < us[i].id {
      var j :| 0 <= j < |front| && front[j] == u;
      assert us[j] == u;
    }
    forall u | u in back ensures u.id > us[i].id {
      var j :| 0 <= j < |back| && back[j] == u;
      assert us[i + 1 + j] == u;
    }
  }

  lemma {:induction false} DropKeepsOthers(rs: seq<Attendance>, uid: Id, q: Query)
    requires q.userId.Some? && q.userId.value != uid
    ensures Select(DropOwnedBy(rs, uid), q) == Select(rs, q)
  {
    if |rs| > 0 {
      DropKeepsOthers(rs[1..], uid, q);
      var d := DropOwnedBy(rs, uid);
      if rs[0].userId != uid {
        assert d == [rs[0]] + DropOwnedBy(rs[1..], uid);
        assert d[0] == rs[0] && d[1..] == DropOwnedBy(rs[1..], uid);
      } else {
        assert d == DropOwnedBy(rs[1..], uid);
        assert !Matches(rs[0], q);
      }
    }
  }

  lemma {:induction false} DropLeavesNone(rs: seq<Attendance>, uid: Id)
    ensures Select(DropOwnedBy(rs, uid), Query(None, Some(uid), None)) == []
  {
    if |rs| > 0 {
      DropLeavesNone(rs[1..], uid);
      var d := DropOwnedBy(rs, uid);
      if rs[0].userId != uid {
        assert d == [rs[0]] + DropOwnedBy(rs[1..], uid);
        assert d[0] == rs[0] && d[1..] == DropOwnedBy(rs[1..], uid);
        assert !Matches(d[0], Query(None, Some(uid), None));
      } else {
        assert d == DropOwnedBy(rs[1..], uid);
      }
    }
  }

  /** After a user is deleted, a listing by that user is empty and a listing by any other
      user returns what it returned before. */
  lemma DeleteUserCascades(t: Tables, id: Id, q: Query)
    requires id in UserIds(t.users)
    ensures Select(DeleteUser(t, id).1.records, Query(None, Some(id), None)) == []
    ensures q.userId.Some? && q.userId.value != id ==>
              Select(DeleteUser(t, id).1.records, q) == Select(t.records, q)
  {
    DropLeavesNone(t.records, id);
    if q.userId.Some? && q.userId.value != id {
      DropKeepsOthers(t.records, id, q);
    }
  }

  lemma {:induction false} DropOrdered(rs: seq<Attendance>, uid: Id)
    requires RecordsOrdered(rs)
    ensures RecordsOrdered(DropOwnedBy(rs, uid))
  {
    if |rs| > 0 {
      DropOrdered(rs[1..], uid);
      var tail := DropOwnedBy(rs[1..], uid);
      forall j | 0 <= j < |tail| ensures rs[0].id < tail[j].id {
        assert tail[j] in rs[1..];
      }
    }
  }

  lemma RemoveAtIndexing<T>(s: seq<T>, i: nat)
    requires i < |s|
    ensures |s[..i] + s[i + 1..]| == |s| - 1
    ensures forall k :: 0 <= k < |s| - 1 ==> (s[..i] + s[i + 1..])[k] == if k < i then s[k] else s[k + 1]
  {
  }

  lemma RemoveUserKeepsOrder(us: seq<User>, i: nat)
    requires i < |us| && UsersOrdered(us) && UniqueLogins(us)
    ensures UsersOrdered(us[..i] + us[i + 1..]) && UniqueLogins(us[..i] + us[i + 1..])
  {
    RemoveAtIndexing(us, i);
  }

  lemma RemoveUserKeepsOtherIds(us: seq<User>, i: nat, x: Id)
    requires i < |us| && x in UserIds(us) && x != us[i].id
    ensures x in UserIds(us[..i] + us[i + 1..])
  {
    var rest := us[..i] + us[i + 1..];
    var j := IndexOf(UserIds(us), x).value;
    if j < i {
      assert rest[j] == us[j];
      assert UserIds(rest)[j] == x;
    } else {
      assert rest[j - 1] == us[j];
      assert UserIds(rest)[j - 1] == x;
    }
  }

  lemma DeleteUserPreserves(t: Tables, id: Id)
    requires Wellformed(t)
    ensures Wellformed(DeleteUser(t, id).1)
  {
    if id in UserIds(t.users) {
      var i := IndexOf(UserIds(t.users), id).value;
      var after := DeleteUser(t, id).1;
      RemoveUserKeepsOrder(t.users, i);
      DropOrdered(t.records, id);
      forall r | r in after.records ensures r.userId in UserIds(after.users) {
        RemoveUserKeepsOtherIds(t.users, i, r.userId);
      }
    }
  }

  /* ----------------------------------------------------------- attendance */

  /** The JSON body of `POST /api/attendance`. */
  datatype MarkRequest = MarkRequest(userId: Option<Id>, status: Option<string>, notes: Option<string>)

  datatype Marked = CheckedIn | CheckedOut

  predicate SameDay(r: Attendance, uid: Id, day: Date) {
    r.userId == uid && r.date == day
  }

  /** `Attendance.query.filter_by(user_id=uid, date=day).first()`: the earliest such row. */
  function FirstOn(rs: seq<Attendance>, uid: Id, day: Date): (r: Option<nat>)
    ensures r.None? <==> forall k :: 0 <= k < |rs| ==> !SameDay(rs[k], uid, day)
    ensures r.Some? ==> r.value < |rs| && SameDay(rs[r.value], uid, day) &&
                        forall k :: 0 <= k < r.value ==> !SameDay(rs[k], uid, day)
  {
    if |rs| == 0 then None
    else if SameDay(rs[0], uid, day) then Some(0)
    else match FirstOn(rs[1..], uid, day)
      case None => None
      case Some(k) => Some(k + 1)
  }

  /** The row the toggle looks at exists and is still open. */
  predicate FirstIsOpen(rs: seq<Attendance>, uid: Id, day: Date) {
    var f := FirstOn(rs, uid, day);
    f.Some? && rs[f.value].checkOut.None?
  }

  /** The row a check-in appends. */
  function CheckInRow(rs: seq<Attendance>, uid: Id, req: MarkRequest, today: Date, now: Timestamp): Attendance {
    Attendance(NextId(RecordIds(rs)), uid, now, None, req.status.GetOr("present"),
               req.notes.GetOr(""), today)
  }

  /** `POST /api/attendance` on day `today` at instant `now`. */
  function Mark(t: Tables, req: MarkRequest, today: Date, now: Timestamp): (out: (Reply<Marked>, Tables))
    ensures out.1.users == t.users
    ensures out.0.Fail? ==> out.1 == t
    ensures req.userId.None? ==> out.0 == Fail(UserIdRequired)
    ensures req.userId.Some? && req.userId.value !in UserIds(t.users) ==> out.0 == Fail(UserNotFound)
    ensures out.0.Ok? <==> req.userId.Some? && req.userId.value in UserIds(t.users)
    ensures out.0 == Ok(CheckedOut) <==> out.0.Ok? && FirstIsOpen(t.records, req.userId.value, today)
    ensures out.0 == Ok(CheckedOut) ==>
      var i := FirstOn(t.records, req.userId.value, today).value;
      && |out.1.records| == |t.records|
      && out.1.records[i] == t.records[i].(checkOut := Some(now))
      && forall k :: 0 <= k < |t.records| && k != i ==> out.1.records[k] == t.records[k]
    ensures out.0 == Ok(CheckedIn) ==>
      && |out.1.records| == |t.records| + 1
      && var r := out.1.records[|t.records|];
      && out.1.records == t.records + [r]
      && r.id !in RecordIds(t.records)
      && r.userId == req.userId.value && r.date == today && r.checkIn == now
      && r.checkOut.None?
      && r.status == (if req.status.Some? then req.status.value else "present")
      && r.notes == (if req.notes.Some? then req.notes.value else "")
  {
    if req.userId.None? then (Fail(UserIdRequired), t)
    else
      var uid := req.userId.value;
      if uid !in UserIds(t.users) then (Fail(UserNotFound), t)
      else if FirstIsOpen(t.records, uid, today) then
        var i := FirstOn(t.records, uid, today).value;
        (Ok(CheckedOut), Tables(t.users, t.records[i := t.records[i].(checkOut := Some(now))]))
      else
        (Ok(CheckedIn), Tables(t.users, t.records + [CheckInRow(t.records, uid, req, today, now)]))
  }

  /** Closing row `i` changes no id and no owner. */
  lemma CloseKeepsWellformed(t: Tables, i: nat, now: Timestamp)
    requires Wellformed(t) && i < |t.records|
    ensures Wellformed(Tables(t.users, t.records[i := t.records[i].(checkOut := Some(now))]))
  {
    var rs := t.records[i := t.records[i].(checkOut := Some(now))];
    assert forall k :: 0 <= k < |rs| ==> rs[k].id == t.records[k].id;
    forall r | r in rs ensures r.userId in UserIds(t.users) {
      var k :| 0 <= k < |rs| && rs[k] == r;
      assert r.userId == t.records[k].userId;
    }
  }

  /** A row with a fresh, larger id and a known owner may go at the end. */
  lemma AppendKeepsWellformed(t: Tables, r: Attendance)
    requires Wellformed(t) && r.userId in UserIds(t.users)
    requires forall k :: 0 <= k < |t.records| ==> t.records[k].id < r.id
    ensures Wellformed(Tables(t.users, t.records + [r]))
  {
    var rs := t.records + [r];
    assert forall k :: 0 <= k < |t.records| ==> rs[k] == t.records[k];
    assert rs[|t.records|] == r;
  }

  lemma MarkPreserves(t: Tables, req: MarkRequest, today: Date, now: Timestamp)
    requires Wellformed(t)
    ensures Wellformed(Mark(t, req, today, now).1)
  {
    var out := Mark(t, req, today, now);
    if out.0 == Ok(CheckedOut) {
      CloseKeepsWellformed(t, FirstOn(t.records, req.userId.value, today).value, now);
    } else if out.0 == Ok(CheckedIn) {
      var r := out.1.records[|t.records|];
      assert forall k :: 0 <= k < |t.records| ==> t.records[k].id == RecordIds(t.records)[k] < r.id;
      AppendKeepsWellformed(t, r);
    }
  }

  /** Adding a row behind the rows of a day leaves the first row of that day in place. */
  lemma FirstOnAppend(rs: seq<Attendance>, x: Attendance, uid: Id, day: Date)
    ensures FirstOn(rs, uid, day).Some? ==> FirstOn(rs + [x], uid, day) == FirstOn(rs, uid, day)
    ensures FirstOn(rs, uid, day).None? && SameDay(x, uid, day) ==> FirstOn(rs + [x], uid, day) == Some(|rs|)
  {
    assert forall k :: 0 <= k < |rs| ==> (rs + [x])[k] == rs[k];
    assert (rs + [x])[|rs|] == x;
  }

  /** Closing a row does not move the first row of any day. */
  lemma FirstOnCheckOut(rs: seq<Attendance>, i: nat, now: Timestamp, uid: Id, day: Date)
    requires i < |rs|
    ensures FirstOn(rs[i := rs[i].(checkOut := Some(now))], uid, day) == FirstOn(rs, uid, day)
  {
    var rs' := rs[i := rs[i].(checkOut := Some(now))];
    assert forall k :: 0 <= k < |rs| ==> (SameDay(rs'[k], uid, day) <==> SameDay(rs[k], uid, day));
    var f, g := FirstOn(rs, uid, day), FirstOn(rs', uid, day);
    if f.Some? {
      assert g.Some?;
    }
  }

  /** For a user with no row today, three marks give a check-in, the matching check-out and a
      new check-in. */
  lemma MarkToggles(t: Tables, req: MarkRequest, today: Date, n1: Timestamp, n2: Timestamp, n3: Timestamp)
    requires req.userId.Some? && req.userId.value in UserIds(t.users)
    requires FirstOn(t.records, req.userId.value, today).None?
    ensures
      var s1 := Mark(t, req, today, n1);
      var s2 := Mark(s1.1, req, today, n2);
      var s3 := Mark(s2.1, req, today, n3);
      && s1.0 == Ok(CheckedIn) && s2.0 == Ok(CheckedOut) && s3.0 == Ok(CheckedIn)
      && s2.1.records[|t.records|].checkIn == n1
      && s2.1.records[|t.records|].checkOut == Some(n2)
      && |s3.1.records| == |t.records| + 2
      && s3.1.records[|t.records| + 1].checkOut.None?
  {
    var uid := req.userId.value;
    var s1 := Mark(t, req, today, n1);
    var r1 := s1.1.records[|t.records|];
    FirstOnAppend(t.records, r1, uid, today);
    assert FirstOn(s1.1.records, uid, today) == Some(|t.records|);
    var s2 := Mark(s1.1, req, today, n2);
    FirstOnCheckOut(s1.1.records, |t.records|, n2, uid, today);
    assert FirstOn(s2.1.records, uid, today) == Some(|t.records|);
    assert !FirstIsOpen(s2.1.records, uid, today);
  }

  /* -------------------------------------------------- attendance updates */

  /** The `check_out_time` value of an update: an ISO-8601 instant, or text
      `datetime.fromisoformat` rejects. */
  datatype TimeArg = Iso(at: Timestamp) | NotIso

  /** The JSON body of `PUT /api/attendance/<id>`; the handler reads no other key. */
  datatype RecordPatch = RecordPatch(status: Option<string>, notes: Option<string>, checkOut: Option<TimeArg>)

  /** `PUT /api/attendance/<id>`; `body == None` is a request without a JSON body. */
  function UpdateAttendance(t: Tables, id: Id, body: Option<RecordPatch>): (out: (Reply<Attendance>, Tables))
    ensures out.0.Fail? ==> out.1 == t
    ensures id !in RecordIds(t.records) ==> out.0 == Fail(RecordNotFound)
    ensures id in RecordIds(t.records) && (body.None? || body.value.checkOut == Some(NotIso)) ==>
              out.0 == Fail(ServerError)
    ensures out.0.Ok? <==>
              id in RecordIds(t.records) && body.Some? && body.value.checkOut != Some(NotIso)
    ensures out.0.Ok? ==>
      var i := IndexOf(RecordIds(t.records), id).value;
      var was := t.records[i];
      var p := body.value;
      var r := out.0.value;
      && out.1 == Tables(t.users, t.records[i := r])
      && r.id == was.id && r.userId == was.userId && r.checkIn == was.checkIn && r.date == was.date
      && r.status == (if p.status.Some? then p.status.value else was.status)
      && r.notes == (if p.notes.Some? then p.notes.value else was.notes)
      && r.checkOut == (if p.checkOut.Some? then Some(p.checkOut.value.at) else was.checkOut)
      && (was.checkOut.Some? ==> r.checkOut.Some?)
  {
    match IndexOf(RecordIds(t.records), id)
    case None => (Fail(RecordNotFound), t)
    case Some(i) =>
      if body.None? || body.value.checkOut == Some(NotIso) then (Fail(ServerError), t)
      else
        var p := body.value;
        var was := t.records[i];
        var r := was.(status := p.status.GetOr(was.status), notes := p.notes.GetOr(was.notes),
                      checkOut := if p.checkOut.Some? then Some(p.checkOut.value.at) else was.checkOut);
        (Ok(r), Tables(t.users, t.records[i := r]))
  }

  lemma UpdateAttendancePreserves(t: Tables, id: Id, body: Option<RecordPatch>)
    requires Wellformed(t)
    ensures Wellformed(UpdateAttendance(t, id, body).1)
  {
    var out := UpdateAttendance(t, id, body);
    if out.0.Ok? {
      var i := IndexOf(RecordIds(t.records), id).value;
      assert forall r :: r in out.1.records ==> r == out.1.records[i] || r in t.records;
    }
  }

  /** `DELETE /api/attendance/<id>`. */
  function DeleteAttendance(t: Tables, id: Id): (out: (Reply<()>, Tables))
    ensures id !in RecordIds(t.records) ==> out == (Fail(RecordNotFound), t)
    ensures id in RecordIds(t.records) ==>
      var i := IndexOf(RecordIds(t.records), id).value;
      && out.0 == Ok(())
      && out.1 == Tables(t.users, t.records[..i] + t.records[i + 1..])
  {
    match IndexOf(RecordIds(t.records), id)
    case None => (Fail(RecordNotFound), t)
    case Some(i) => (Ok(()), Tables(t.users, t.records[..i] + t.records[i + 1..]))
  }

  /** With unique ids, deleting a record removes that one record and keeps every other. */
  lemma DeleteAttendanceRemovesExactlyOne(t: Tables, id: Id)
    requires RecordsOrdered(t.records) && id in RecordIds(t.records)
    ensures forall r :: r in DeleteAttendance(t, id).1.records <==> r in t.records && r.id != id
  {
    var i := IndexOf(RecordIds(t.records), id).value;
    assert t.records[i].id == RecordIds(t.records)[i];
    RemoveRecordMembers(t.records, i);
  }

  lemma RemoveRecordMembers(rs: seq<Attendance>, i: nat)
    requires i < |rs| && RecordsOrdered(rs)
    ensures forall r :: r in rs[..i] + rs[i + 1..] <==> r in rs && r.id != rs[i].id
  {
    var front, back := rs[..i], rs[i + 1..];
    assert rs == front + [rs[i]] + back;
    forall r | r in front ensures r.id < rs[i].id {
      var j :| 0 <= j < |front| && front[j] == r;
      assert rs[j] == r;
    }
    forall r | r in back ensures r.id > rs[i].id {
      var j :| 0 <= j < |back| && back[j] == r;
      assert rs[i + 1 + j] == r;
    }
  }

  lemma RemoveRecordKeepsOrder(rs: seq<Attendance>, i: nat)
    requires i < |rs| && RecordsOrdered(rs)
    ensures RecordsOrdered(rs[..i] + rs[i + 1..])
  {
    RemoveAtIndexing(rs, i);
  }

  lemma DeleteAttendancePreserves(t: Tables, id: Id)
    requires Wellformed(t)
    ensures Wellformed(DeleteAttendance(t, id).1)
  {
    if id in RecordIds(t.records) {
      var i := IndexOf(RecordIds(t.records), id).value;
      RemoveRecordKeepsOrder(t.records, i);
      RemoveRecordMembers(t.records, i);
      assert DeleteAttendance(t, id).1 == Tables(t.users, t.records[..i] + t.records[i + 1..]);
    }
  }
}
