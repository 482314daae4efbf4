/**
 * The database session as an object: the two tables are its fields, and each mutating
 * handler is a method that validates the request, then assigns the changed rows in place.
 * Every method keeps the tables well formed and leaves them exactly as they were when it
 * fails.
 */
module RecordStore {
  import opened Wrappers
  import opened Model
  import Handlers

  class Store {
    var users: seq<User>
    var records: seq<Attendance>

    function Snapshot(): Tables
      reads this
    {
      Tables(users, records)
    }

    ghost predicate Valid()
      reads this
    {
      Wellformed(Snapshot())
    }

    /** A freshly created database. */
    constructor ()
      ensures Valid() && users == [] && records == []
    {
      users := [];
      records := [];
    }

    /** `create_user`. */
    method CreateUser(req: Handlers.NewUser, hash: string -> string, now: Timestamp) returns (r: Reply<User>)
      requires Valid()
      modifies this
      ensures Valid()
      ensures (r, Snapshot()) == Handlers.CreateUser(old(Snapshot()), req, hash, now)
      ensures r.Fail? ==> users == old(users) && records == old(records)
    {
      Handlers.CreateUserPreserves(Snapshot(), req, hash, now);
      if req.username.None? || req.email.None? || req.password.None? {
        return Fail(MissingFields);
      }
      if UsernameTaken(users, req.username.value) {
        return Fail(UsernameExists);
      }
      if EmailTaken(users, req.email.value) {
        return Fail(EmailExists);
      }
      var user := User(NextId(UserIds(users)), req.username.value, req.email.value, "",
                       req.role.GetOr("user"), now);
      user := user.(passwordHash := hash(req.password.value));  // set_password
      users := users + [user];
      r := Ok(user);
    }

    /** `update_user`: the supplied fields are assigned, then the commit checks the unique
        columns. */
    method UpdateUser(id: Id, body: Option<Handlers.UserPatch>) returns (r: Reply<User>)
      requires Valid()
      modifies this
      ensures Valid()
      ensures (r, Snapshot()) == Handlers.UpdateUser(old(Snapshot()), id, body)
      ensures r.Fail? ==> users == old(users) && records == old(records)
    {
      Handlers.UpdateUserPreserves(Snapshot(), id, body);
      var found := IndexOf(UserIds(users), id);
      if found.None? {
        return Fail(UserNotFound);
      }
      var i := found.value;
      if body.None? {
        return Fail(ServerError);
      }
      var p := body.value;
      var user := users[i];
      if p.username.Some? {
        user := user.(username := p.username.value);
      }
      if p.email.Some? {
        user := user.(email := p.email.value);
      }
      if p.role.Some? {
        user := user.(role := p.role.value);
      }
      if Handlers.Collides(users, i, user) {
        return Fail(ServerError);  // the commit fails and is rolled back
      }
      users := users[i := user];
      r := Ok(user);
    }

    /** `delete_user`, with the cascade to the user's attendance rows. */
    method DeleteUser(id: Id) returns (r: Reply<()>)
      requires Valid()
      modifies this
      ensures Valid()
      ensures (r, Snapshot()) == Handlers.DeleteUser(old(Snapshot()), id)
      ensures r.Fail? ==> users == old(users) && records == old(records)
    {
      Handlers.DeleteUserPreserves(Snapshot(), id);
      var found := IndexOf(UserIds(users), id);
      if found.None? {
        return Fail(UserNotFound);
      }
      var i := found.value;
      records := Handlers.DropOwnedBy(records, id);
      users := users[..i] + users[i + 1..];
      r := Ok(());
    }

    /** `mark_attendance` on day `today` at instant `now`. */
    method MarkAttendance(req: Handlers.MarkRequest, today: Date, now: Timestamp) returns (r: Reply<Handlers.Marked>)
      requires Valid()
      modifies this
      ensures Valid()
      ensures (r, Snapshot()) == Handlers.Mark(old(Snapshot()), req, today, now)
      ensures r.Fail? ==> users == old(users) && records == old(records)
    {
      Handlers.MarkPreserves(Snapshot(), req, today, now);
      if req.userId.None? {
        return Fail(UserIdRequired);
      }
      var uid := req.userId.value;
      if FindUser(users, uid).None? {
        return Fail(UserNotFound);
      }
      var existing := Handlers.FirstOn(records, uid, today);
      if existing.Some? && records[existing.value].checkOut.None? {
        var i := existing.value;
        records := records[i := records[i].(checkOut := Some(now))];
        r := Ok(Handlers.CheckedOut);
      } else {
        var row := Attendance(NextId(RecordIds(records)), uid, now, None,
                              req.status.GetOr("present"), req.notes.GetOr(""), today);
        records := records + [row];
        r := Ok(Handlers.CheckedIn);
      }
    }

    /** `update_attendance`. */
    method UpdateAttendance(id: Id, body: Option<Handlers.RecordPatch>) returns (r: Reply<Attendance>)
      requires Valid()
      modifies this
      ensures Valid()
      ensures (r, Snapshot()) == Handlers.UpdateAttendance(old(Snapshot()), id, body)
      ensures r.Fail? ==> users == old(users) && records == old(records)
    {
      Handlers.UpdateAttendancePreserves(Snapshot(), id, body);
      var found := IndexOf(RecordIds(records), id);
      if found.None? {
        return Fail(RecordNotFound);
      }
      var i := found.value;
      if body.None? {
        return Fail(ServerError);
      }
      var p := body.value;
      var row := records[i];
      if p.status.Some? {
        row := row.(status := p.status.value);
      }
      if p.notes.Some? {
        row := row.(notes := p.notes.value);
      }
      if p.checkOut.Some? {
        if p.checkOut.value.NotIso? {
          return Fail(ServerError);  // fromisoformat raises; the session is rolled back
        }
        row := row.(checkOut := Some(p.checkOut.value.at));
      }
      records := records[i := row];
      r := Ok(row);
    }

    /** `delete_attendance`. */
    method DeleteAttendance(id: Id) returns (r: Reply<()>)
      requires Valid()
      modifies this
      ensures Valid()
      ensures (r, Snapshot()) == Handlers.DeleteAttendance(old(Snapshot()), id)
      ensures r.Fail? ==> users == old(users) && records == old(records)
    {
      Handlers.DeleteAttendancePreserves(Snapshot(), id);
      var found := IndexOf(RecordIds(records), id);
      if found.None? {
        return Fail(RecordNotFound);
      }
      var i := found.value;
      records := records[..i] + records[i + 1..];
      r := Ok(());
    }
  }
}
