/**
 * The two tables of the attendance tracker: user rows and attendance rows, their public
 * (JSON) forms, how the store numbers new rows, and the consistency the tables keep.
 */
module Model {
  import opened Wrappers

  type Id = int
  /** An instant (a count of seconds) and a calendar day (a count of days). */
  type Timestamp = int
  type Date = int

  /** A row of the user table; `passwordHash` is what `set_password` stored. */
  datatype User = User(id: Id, username: string, email: string, passwordHash: string,
                       role: string, createdAt: Timestamp)

  /** A row of the attendance table; `checkOut == None` means the session is still open. */
  datatype Attendance = Attendance(id: Id, userId: Id, checkIn: Timestamp,
                                   checkOut: Option<Timestamp>, status: string,
                                   notes: string, date: Date)

  /** The JSON values a `to_dict` produces; instants and days stay unformatted. */
  datatype Json = JInt(i: int) | JStr(s: string) | JTime(t: Timestamp) | JDate(d: Date) | JNull

  /** The keys a `to_dict` may use, one per column name (`Password` is the user's
      `password` column, which the public form leaves out). */
  datatype Key =
    | IdKey | UsernameKey | EmailKey | PasswordKey | RoleKey | CreatedAtKey
    | UserIdKey | CheckInKey | CheckOutKey | StatusKey | NotesKey | DateKey

  type Dict = map<Key, Json>

  /** `User.to_dict`: the public form of a user. */
  function UserToDict(u: User): (d: Dict)
    ensures d.Keys == {IdKey, UsernameKey, EmailKey, RoleKey, CreatedAtKey}
    ensures PasswordKey !in d
  {
    map[IdKey := JInt(u.id), UsernameKey := JStr(u.username), EmailKey := JStr(u.email),
        RoleKey := JStr(u.role), CreatedAtKey := JTime(u.createdAt)]
  }

  predicate SamePublicFields(u: User, v: User) {
    u.id == v.id && u.username == v.username && u.email == v.email &&
    u.role == v.role && u.createdAt == v.createdAt
  }

  /** The public form carries exactly the public fields: it tells two users apart exactly
      when one of those differs, and so never depends on the password hash. */
  lemma UserDictIsPublicFields(u: User, v: User)
    ensures UserToDict(u) == UserToDict(v) <==> SamePublicFields(u, v)
  {
    if UserToDict(u) == UserToDict(v) {
      assert UserToDict(u)[IdKey] == UserToDict(v)[IdKey];
      assert UserToDict(u)[UsernameKey] == UserToDict(v)[UsernameKey];
      assert UserToDict(u)[EmailKey] == UserToDict(v)[EmailKey];
      assert UserToDict(u)[RoleKey] == UserToDict(v)[RoleKey];
      assert UserToDict(u)[CreatedAtKey] == UserToDict(v)[CreatedAtKey];
    }
  }

  /** `Attendance.to_dict`, given the owning user's username (the `self.user` join). */
  function AttendanceToDict(r: Attendance, username: string): (d: Dict)
    ensures d.Keys == {IdKey, UserIdKey, UsernameKey, CheckInKey, CheckOutKey,
                       StatusKey, NotesKey, DateKey}
    ensures d[CheckOutKey] == JNull <==> r.checkOut.None?
    ensures d[UsernameKey] == JStr(username)
  {
    map[IdKey := JInt(r.id), UserIdKey := JInt(r.userId), UsernameKey := JStr(username),
        CheckInKey := JTime(r.checkIn),
        CheckOutKey := (match r.checkOut case Some(t) => JTime(t) case None => JNull),
        StatusKey := JStr(r.status), NotesKey := JStr(r.notes), DateKey := JDate(r.date)]
  }

  /** The primary-key column of each table, in table order. The two tables have different
      row types and Dafny has no common supertype without a trait, hence one function each. */
  function UserIds(us: seq<User>): (ids: seq<Id>)
    ensures |ids| == |us| && forall i :: 0 <= i < |us| ==> ids[i] == us[i].id
  {
    seq(|us|, i requires 0 <= i < |us| => us[i].id)
  }

  function RecordIds(rs: seq<Attendance>): (ids: seq<Id>)
    ensures |ids| == |rs| && forall i :: 0 <= i < |rs| ==> ids[i] == rs[i].id
  {
    seq(|rs|, i requires 0 <= i < |rs| => rs[i].id)
  }

  /** The largest id in use, 0 for an empty table. */
  function MaxId(ids: seq<Id>): (m: Id)
    ensures 0 <= m
    ensures forall i :: 0 <= i < |ids| ==> ids[i] <= m
    ensures m == 0 || m in ids
  {
    if |ids| == 0 then 0
    else
      var m := MaxId(ids[..|ids| - 1]);
      if ids[|ids| - 1] > m then ids[|ids| - 1] else m
  }

  /** The id the store gives a new row: one more than the largest id in use. */
  function NextId(ids: seq<Id>): (n: Id)
    ensures n >= 1 && n !in ids
    ensures forall i :: 0 <= i < |ids| ==> ids[i] < n
  {
    MaxId(ids) + 1
  }

  /** Where `x` first occurs in `ids` (a lookup by primary key). */
  function IndexOf(ids: seq<Id>, x: Id): (r: Option<nat>)
    ensures r.None? <==> x !in ids
    ensures r.Some? ==> r.value < |ids| && ids[r.value] == x && x !in ids[..r.value]
  {
    if |ids| == 0 then None
    else if ids[0] == x then Some(0)
    else match IndexOf(ids[1..], x)
      case None => None
      case Some(k) =>
        assert ids[..k + 1] == [ids[0]] + ids[1..][..k];
        Some(k + 1)
  }

  /** `User.query.get(id)`. */
  function FindUser(us: seq<User>, id: Id): (r: Option<User>)
    ensures r.None? <==> id !in UserIds(us)
    ensures r.Some? ==> r.value in us && r.value.id == id
  {
    match IndexOf(UserIds(us), id)
    case None => None
    case Some(i) => Some(us[i])
  }

  /** `User.query.filter_by(username=name).first()` finds a row. */
  predicate UsernameTaken(us: seq<User>, name: string) {
    exists i :: 0 <= i < |us| && us[i].username == name
  }

  /** `User.query.filter_by(email=email).first()` finds a row. */
  predicate EmailTaken(us: seq<User>, email: string) {
    exists i :: 0 <= i < |us| && us[i].email == email
  }

  /** Both tables, each in primary-key order. */
  datatype Tables = Tables(users: seq<User>, records: seq<Attendance>)

  ghost predicate UsersOrdered(us: seq<User>) {
    forall i, j :: 0 <= i < j < |us| ==> us[i].id < us[j].id
  }

  ghost predicate RecordsOrdered(rs: seq<Attendance>) {
    forall i, j :: 0 <= i < j < |rs| ==> rs[i].id < rs[j].id
  }

  /** The `unique=True` columns: no two users share a username or an email. */
  ghost predicate UniqueLogins(us: seq<User>) {
    forall i, j :: 0 <= i < |us| && 0 <= j < |us| && i != j ==>
      us[i].username != us[j].username && us[i].email != us[j].email
  }

  /** The foreign key: every attendance row belongs to a live user. */
  ghost predicate OwnersExist(us: seq<User>, rs: seq<Attendance>) {
    forall r :: r in rs ==> r.userId in UserIds(us)
  }

  ghost predicate Wellformed(t: Tables) {
    && UsersOrdered(t.users)
    && RecordsOrdered(t.records)
    && UniqueLogins(t.users)
    && OwnersExist(t.users, t.records)
  }
}
