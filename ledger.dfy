/**
 * The two collections of the backend: users and the append-only attendance
 * ledger, with the queries that read them (`findById`, the "today" lookup and
 * the newest-first history).
 */
module Ledger {
  import opened Wrappers
  import opened Clock
  import opened FaceMatch
  import Store

  /** A document identifier (a MongoDB ObjectId). */
  type ObjectId = string

  /** A registered user. `passwordHash` is an opaque bcrypt hash. */
  datatype User = User(
    id: ObjectId, name: string, email: string, passwordHash: string,
    faceDescriptor: Descriptor, role: string)

  /** An attendance record: the owning user, its timestamp and its status. */
  datatype Record = Record(userId: ObjectId, date: Time, status: string)

  /** The schema's default status. */
  const DefaultStatus: string := "present"

  /** `new Attendance({ userId })`: the date defaults to the current time, the status to "present". */
  function NewRecord(userId: ObjectId, now: Time): (r: Record)
    ensures r.userId == userId && r.date == now && r.status == "present"
    ensures forall zone :: DatedFrom(r, userId, StartOfDay(now, zone))
  {
    Record(userId, now, DefaultStatus)
  }

  /** The store's assumed invariant: ids are unique, and so are emails (the unique index). */
  ghost predicate UniqueUsers(users: seq<User>)
  {
    forall i, j :: 0 <= i < j < |users| ==> users[i].id != users[j].id && users[i].email != users[j].email
  }

  /** `User.findById(id)`. */
  function FindUser(users: seq<User>, id: ObjectId): (r: Option<User>)
    ensures r.None? <==> forall i :: 0 <= i < |users| ==> users[i].id != id
    ensures r.Some? ==> r.value in users && r.value.id == id
  {
    Store.FindFirst(users, (u: User) => u.id == id)
  }

  /** The filter `{ userId, date: { $gte: midnight } }`. */
  predicate DatedFrom(r: Record, userId: ObjectId, midnight: Time)
  {
    r.userId == userId && r.date >= midnight
  }

  /** `Attendance.findOne({ userId, date: { $gte: today } })` with `today` the local midnight of `now`. */
  function Today(records: seq<Record>, userId: ObjectId, now: Time, zone: int): (r: Option<Record>)
    ensures r.Some? ==> r.value in records && r.value.userId == userId && r.value.date >= StartOfDay(now, zone)
    ensures r.None? <==>
      forall i :: 0 <= i < |records| ==> !(records[i].userId == userId && records[i].date >= StartOfDay(now, zone))
  {
    var midnight := StartOfDay(now, zone);
    Store.FindFirst(records, (r: Record) => DatedFrom(r, userId, midnight))
  }

  /** The records of one user, in ledger order: `Attendance.find({ userId })`. */
  function Owned(records: seq<Record>, userId: ObjectId): (r: seq<Record>)
    ensures forall x :: x in r <==> x in records && x.userId == userId
    ensures forall x {:trigger multiset(r)[x]} :: multiset(r)[x] == if x.userId == userId then multiset(records)[x] else 0
    ensures |r| <= |records|
  {
    if |records| == 0 then []
    else
      var n := |records| - 1;
      var rest := Owned(records[..n], userId);
      assert records == records[..n] + [records[n]];
      assert forall x :: x in records <==> x == records[n] || x in records[..n];
      assert multiset(records) == multiset(records[..n]) + multiset{records[n]};
      if records[n].userId == userId then rest + [records[n]] else rest
  }

  /** Newest first: dates never increase along the sequence. */
  ghost predicate NewestFirst(s: seq<Record>)
  {
    forall i, j :: 0 <= i < j < |s| ==> s[i].date >= s[j].date
  }

  /** Insert `r` into a newest-first sequence, before the first record older than it. */
  function Insert(r: Record, s: seq<Record>): (t: seq<Record>)
    requires NewestFirst(s)
    ensures NewestFirst(t)
    ensures multiset(t) == multiset(s) + multiset{r}
    ensures |t| == |s| + 1 && (t[0] == r || (|s| > 0 && t[0] == s[0]))
  {
    if |s| == 0 then [r]
    else if r.date >= s[0].date then [r] + s
    else
      var t := Insert(r, s[1..]);
      assert s == [s[0]] + s[1..];
      assert s[0].date >= t[0].date;
      var u := [s[0]] + t;
      assert forall j :: 0 < j < |u| ==> u[j] == t[j - 1];
      u
  }

  /** `.sort({ date: -1 })`, as an insertion sort. */
  function SortNewestFirst(s: seq<Record>): (t: seq<Record>)
    ensures NewestFirst(t)
    ensures multiset(t) == multiset(s)
  {
    if |s| == 0 then []
    else
      assert s == [s[0]] + s[1..];
      Insert(s[0], SortNewestFirst(s[1..]))
  }

  /** `GET /api/attendance/:userId`: all of the user's records, newest first. */
  function History(records: seq<Record>, userId: ObjectId): (h: seq<Record>)
    ensures NewestFirst(h)
    ensures forall x :: x in h <==> x in records && x.userId == userId
    ensures multiset(h) == multiset(Owned(records, userId))
  {
    var h := SortNewestFirst(Owned(records, userId));
    assert forall x :: x in h <==> x in multiset(h);
    h
  }
}
