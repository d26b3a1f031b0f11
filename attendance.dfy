/**
 * `POST /api/mark-attendance`: the decision that guards the ledger, the state
 * it leaves behind, and the once-per-day invariant it keeps.
 */
module Attendance {
  import opened Wrappers
  import opened Clock
  import opened FaceMatch
  import opened Ledger

  /** The four answers of the handler. */
  datatype MarkOutcome = UserNotFound | AlreadyMarked | FaceNotRecognized | Marked

  /** The HTTP status the handler answers with. */
  function HttpStatus(o: MarkOutcome): (code: int)
    ensures code == 200 <==> o == AlreadyMarked || o == Marked
    ensures o == UserNotFound <==> code == 404
    ensures o == FaceNotRecognized <==> code == 400
  {
    match o
    case UserNotFound => 404
    case AlreadyMarked => 200
    case FaceNotRecognized => 400
    case Marked => 200
  }

  /** The message (or error) text of the answer. */
  function Message(o: MarkOutcome): string
  {
    match o
    case UserNotFound => "User not found"
    case AlreadyMarked => "Attendance already marked today"
    case FaceNotRecognized => "Face not recognized"
    case Marked => "Attendance marked successfully"
  }

  /** The four answers carry four different texts, so a client can tell them apart. */
  lemma MessagesDistinct(o: MarkOutcome, p: MarkOutcome)
    requires o != p
    ensures Message(o) != Message(p)
  {
  }

  /**
   * The checks in the handler's order: the user must exist; a record dated at or
   * after today's midnight makes the call a no-op; a supplied descriptor must be
   * within the threshold of the stored one; otherwise a record is added.
   */
  function Decide(users: seq<User>, records: seq<Record>, userId: ObjectId,
                  descriptor: Option<Descriptor>, now: Time, zone: int): (o: MarkOutcome)
    ensures o == UserNotFound <==> forall i :: 0 <= i < |users| ==> users[i].id != userId
    ensures o == AlreadyMarked <==>
      (exists i :: 0 <= i < |users| && users[i].id == userId) &&
      (exists j :: 0 <= j < |records| && DatedFrom(records[j], userId, StartOfDay(now, zone)))
    ensures o == FaceNotRecognized ==>
      descriptor.Some? &&
      (exists i :: 0 <= i < |users| && users[i].id == userId && Rejected(descriptor.value, users[i].faceDescriptor))
    ensures o == Marked ==>
      (forall j :: 0 <= j < |records| ==> !DatedFrom(records[j], userId, StartOfDay(now, zone))) &&
      (descriptor.None? ||
       exists i :: 0 <= i < |users| && users[i].id == userId && !Rejected(descriptor.value, users[i].faceDescriptor))
  {
    match FindUser(users, userId)
    case None => UserNotFound
    case Some(user) =>
      if Today(records, userId, now, zone).Some? then AlreadyMarked
      else if descriptor.Some? && Rejected(descriptor.value, user.faceDescriptor) then FaceNotRecognized
      else Marked
  }

  /** The ledger after a call that answered `o`: one new record on success, unchanged otherwise. */
  function After(records: seq<Record>, userId: ObjectId, now: Time, o: MarkOutcome): (a: seq<Record>)
    ensures |a| == if o == Marked then |records| + 1 else |records|
    ensures a[..|records|] == records
    ensures o == Marked ==> a[|records|] == NewRecord(userId, now)
  {
    if o == Marked then records + [NewRecord(userId, now)] else records
  }

  /** When ids are unique, the decision is the handler's table read off the one user with that id. */
  lemma DecideForUser(users: seq<User>, records: seq<Record>, userId: ObjectId,
                      descriptor: Option<Descriptor>, now: Time, zone: int, i: nat)
    requires UniqueUsers(users)
    requires i < |users| && users[i].id == userId
    ensures Decide(users, records, userId, descriptor, now, zone) ==
      if exists j :: 0 <= j < |records| && DatedFrom(records[j], userId, StartOfDay(now, zone)) then AlreadyMarked
      else if descriptor.Some? && Rejected(descriptor.value, users[i].faceDescriptor) then FaceNotRecognized
      else Marked
  {
    var u := FindUser(users, userId);
    assert u.Some?;
    var k :| 0 <= k < |users| && users[k] == u.value;
    assert k == i;
  }

  /** An unknown user gets "User not found" and the ledger is left as it was. */
  lemma UnknownUserChangesNothing(users: seq<User>, records: seq<Record>, userId: ObjectId,
                                  descriptor: Option<Descriptor>, now: Time, zone: int)
    requires forall i :: 0 <= i < |users| ==> users[i].id != userId
    ensures Decide(users, records, userId, descriptor, now, zone) == UserNotFound
    ensures After(records, userId, now, UserNotFound) == records
  {
  }

  /**
   * A user who already has a record dated at or after today's midnight gets
   * "Attendance already marked today" whatever descriptor is sent, even one that
   * would be rejected: the already-marked check runs before the face check.
   */
  lemma AlreadyMarkedBeforeFaceCheck(users: seq<User>, records: seq<Record>, userId: ObjectId,
                                     descriptor: Option<Descriptor>, now: Time, zone: int, i: nat, j: nat)
    requires i < |users| && users[i].id == userId
    requires j < |records| && DatedFrom(records[j], userId, StartOfDay(now, zone))
    ensures Decide(users, records, userId, descriptor, now, zone) == AlreadyMarked
    ensures After(records, userId, now, AlreadyMarked) == records
  {
  }

  /** Every answer but success leaves the ledger unchanged. */
  lemma RejectionChangesNothing(users: seq<User>, records: seq<Record>, userId: ObjectId,
                                descriptor: Option<Descriptor>, now: Time, zone: int)
    requires Decide(users, records, userId, descriptor, now, zone) != Marked
    ensures After(records, userId, now, Decide(users, records, userId, descriptor, now, zone)) == records
  {
  }

  /** A supplied descriptor at distance 0.6 or more from the stored one is refused and nothing is recorded. */
  lemma FarDescriptorRefused(users: seq<User>, records: seq<Record>, userId: ObjectId,
                             captured: Descriptor, now: Time, zone: int, i: nat)
    requires UniqueUsers(users)
    requires i < |users| && users[i].id == userId
    requires Today(records, userId, now, zone).None?
    requires |captured| <= |users[i].faceDescriptor|
    requires Distance(captured, users[i].faceDescriptor) >= MatchThreshold
    ensures Decide(users, records, userId, Some(captured), now, zone) == FaceNotRecognized
    ensures After(records, userId, now, FaceNotRecognized) == records
  {
    DecideForUser(users, records, userId, Some(captured), now, zone, i);
  }

  /**
   * An existing user with no record today always gets one when the descriptor is
   * left out (the match step is skipped) or is identical to the stored one.
   */
  lemma MarkedWithoutOrWithMatchingDescriptor(users: seq<User>, records: seq<Record>, userId: ObjectId,
                                              now: Time, zone: int, i: nat)
    requires UniqueUsers(users)
    requires i < |users| && users[i].id == userId
    requires Today(records, userId, now, zone).None?
    ensures Decide(users, records, userId, None, now, zone) == Marked
    ensures Decide(users, records, userId, Some(users[i].faceDescriptor), now, zone) == Marked
  {
    DecideForUser(users, records, userId, None, now, zone, i);
    DecideForUser(users, records, userId, Some(users[i].faceDescriptor), now, zone, i);
    IdenticalAccepted(users[i].faceDescriptor);
  }

  /**
   * A success appends exactly one record, owned by the caller's user, dated `now`,
   * with status "present", and keeps every earlier record in place.
   */
  lemma SuccessAppendsOne(records: seq<Record>, userId: ObjectId, now: Time)
    ensures |After(records, userId, now, Marked)| == |records| + 1
    ensures After(records, userId, now, Marked)[..|records|] == records
    ensures After(records, userId, now, Marked)[|records|] == Record(userId, now, "present")
  {
  }

  /**
   * After a success, a "today" query made at any later moment of the same day
   * answers with the record just added.
   */
  lemma {:induction false} TodayAfterMark(users: seq<User>, records: seq<Record>, userId: ObjectId,
                                          descriptor: Option<Descriptor>, now: Time, later: Time, zone: int)
    requires Decide(users, records, userId, descriptor, now, zone) == Marked
    requires StartOfDay(later, zone) == StartOfDay(now, zone)
    ensures Today(After(records, userId, now, Marked), userId, later, zone) == Some(NewRecord(userId, now))
  {
    var after := After(records, userId, now, Marked);
    var t := Today(after, userId, later, zone);
    assert DatedFrom(after[|records|], userId, StartOfDay(later, zone));
    assert t.Some?;
    var k :| 0 <= k < |after| && after[k] == t.value && DatedFrom(after[k], userId, StartOfDay(later, zone));
    assert forall j :: 0 <= j < |records| ==> after[j] == records[j];
    assert k == |records|;
  }

  /** An error answer (a status other than 200) never changes the ledger. */
  lemma ErrorStatusChangesNothing(users: seq<User>, records: seq<Record>, userId: ObjectId,
                                  descriptor: Option<Descriptor>, now: Time, zone: int)
    requires HttpStatus(Decide(users, records, userId, descriptor, now, zone)) != 200
    ensures After(records, userId, now, Decide(users, records, userId, descriptor, now, zone)) == records
  {
  }

  /** `Owned` of a ledger with one more record. */
  lemma OwnedAppend(records: seq<Record>, r: Record, userId: ObjectId)
    ensures Owned(records + [r], userId) ==
      if r.userId == userId then Owned(records, userId) + [r] else Owned(records, userId)
  {
    assert (records + [r])[..|records|] == records;
  }

  /**
   * After a success the user's history holds exactly one record more, the new one,
   * and every other user's history holds the same records as before.
   */
  lemma HistoryAfterMark(records: seq<Record>, userId: ObjectId, now: Time, other: ObjectId)
    ensures multiset(History(After(records, userId, now, Marked), userId)) ==
      multiset(History(records, userId)) + multiset{NewRecord(userId, now)}
    ensures other != userId ==>
      multiset(History(After(records, userId, now, Marked), other)) == multiset(History(records, other))
  {
    OwnedAppend(records, NewRecord(userId, now), userId);
    OwnedAppend(records, NewRecord(userId, now), other);
  }

  /**
   * Two calls for the same user on the same day: once the first has succeeded or
   * found the day already marked, the second answers "already marked" and adds nothing.
   */
  lemma SameDayTwice(users: seq<User>, records: seq<Record>, userId: ObjectId,
                     first: Option<Descriptor>, second: Option<Descriptor>,
                     now1: Time, now2: Time, zone: int)
    requires Decide(users, records, userId, first, now1, zone) in {Marked, AlreadyMarked}
    requires StartOfDay(now1, zone) == StartOfDay(now2, zone)
    ensures
      var mid := After(records, userId, now1, Decide(users, records, userId, first, now1, zone));
      Decide(users, mid, userId, second, now2, zone) == AlreadyMarked &&
      After(mid, userId, now2, AlreadyMarked) == mid
  {
    var o := Decide(users, records, userId, first, now1, zone);
    var mid := After(records, userId, now1, o);
    if o == Marked {
      assert DatedFrom(mid[|records|], userId, StartOfDay(now2, zone));
    } else {
      var j :| 0 <= j < |records| && DatedFrom(records[j], userId, StartOfDay(now1, zone));
      assert DatedFrom(mid[j], userId, StartOfDay(now2, zone));
    }
  }

  /** At most one record per user per calendar day. */
  ghost predicate OncePerDay(records: seq<Record>, zone: int)
  {
    forall i, j :: 0 <= i < j < |records| && records[i].userId == records[j].userId ==>
      StartOfDay(records[i].date, zone) != StartOfDay(records[j].date, zone)
  }

  /** A single call keeps at most one record per user per day, whatever the clock says. */
  lemma MarkKeepsOncePerDay(users: seq<User>, records: seq<Record>, userId: ObjectId,
                            descriptor: Option<Descriptor>, now: Time, zone: int)
    requires OncePerDay(records, zone)
    ensures OncePerDay(After(records, userId, now, Decide(users, records, userId, descriptor, now, zone)), zone)
  {
    var o := Decide(users, records, userId, descriptor, now, zone);
    if o == Marked {
      var after := After(records, userId, now, o);
      forall i | 0 <= i < |records| && records[i].userId == userId
        ensures StartOfDay(records[i].date, zone) != StartOfDay(now, zone)
      {
        assert !DatedFrom(records[i], userId, StartOfDay(now, zone));
      }
      assert forall i :: 0 <= i < |records| ==> after[i] == records[i];
    }
  }

  /**
   * On a ledger with no record dated after `now`, "dated at or after today's
   * midnight" means "on today's calendar day".
   */
  lemma TodayMeansSameDay(records: seq<Record>, userId: ObjectId, now: Time, zone: int)
    requires forall j :: 0 <= j < |records| ==> records[j].date <= now
    ensures Today(records, userId, now, zone).Some? <==>
      exists j :: 0 <= j < |records| && records[j].userId == userId &&
        StartOfDay(records[j].date, zone) == StartOfDay(now, zone)
  {
    if Today(records, userId, now, zone).Some? {
      var j :| 0 <= j < |records| && DatedFrom(records[j], userId, StartOfDay(now, zone));
      SameDayAsNow(records[j].date, now, zone);
    } else {
      forall j | 0 <= j < |records| && records[j].userId == userId
        ensures StartOfDay(records[j].date, zone) != StartOfDay(now, zone)
      {
        assert !DatedFrom(records[j], userId, StartOfDay(now, zone));
      }
    }
  }

  /** One request to the handler. */
  datatype Call = Call(userId: ObjectId, descriptor: Option<Descriptor>, now: Time)

  /** The ledger after handling `calls` one after another. */
  function Run(users: seq<User>, records: seq<Record>, calls: seq<Call>, zone: int): seq<Record>
    decreases |calls|
  {
    if |calls| == 0 then records
    else
      var c := calls[0];
      Run(users, After(records, c.userId, c.now, Decide(users, records, c.userId, c.descriptor, c.now, zone)),
          calls[1..], zone)
  }

  /**
   * Any sequence of calls keeps at most one record per user per day, leaves
   * every earlier record where it was, and adds at most one record per call.
   */
  lemma {:induction false} RunKeepsOncePerDay(users: seq<User>, records: seq<Record>, calls: seq<Call>, zone: int)
    requires OncePerDay(records, zone)
    ensures OncePerDay(Run(users, records, calls, zone), zone)
    ensures |records| <= |Run(users, records, calls, zone)| <= |records| + |calls|
    ensures Run(users, records, calls, zone)[..|records|] == records
    decreases |calls|
  {
    if |calls| > 0 {
      var c := calls[0];
      var mid := After(records, c.userId, c.now, Decide(users, records, c.userId, c.descriptor, c.now, zone));
      MarkKeepsOncePerDay(users, records, c.userId, c.descriptor, c.now, zone);
      RunKeepsOncePerDay(users, mid, calls[1..], zone);
      assert mid[..|records|] == records;
      var final := Run(users, mid, calls[1..], zone);
      assert final[..|records|] == final[..|mid|][..|records|];
    }
  }

  /**
   * The service state: the users collection, the attendance ledger, and the
   * server's local zone offset, which fixes where midnight falls.
   */
  class AttendanceService {
    var users: seq<User>
    var records: seq<Record>
    const zone: int

    ghost predicate Valid()
      reads this
    {
      UniqueUsers(users) && OncePerDay(records, zone)
    }

    constructor (users: seq<User>, records: seq<Record>, zone: int)
      requires UniqueUsers(users) && OncePerDay(records, zone)
      ensures Valid()
      ensures this.users == users && this.records == records && this.zone == zone
    {
      this.users := users;
      this.records := records;
      this.zone := zone;
    }

    /** The handler: look up the user, look for today's record, check the face, then save. */
    method MarkAttendance(userId: ObjectId, descriptor: Option<Descriptor>, now: Time) returns (outcome: MarkOutcome)
      requires Valid()
      modifies this
      ensures Valid()
      ensures outcome == Decide(old(users), old(records), userId, descriptor, now, zone)
      ensures users == old(users)
      ensures records == After(old(records), userId, now, outcome)
    {
      var user := FindUser(users, userId);
      if user.None? {
        return UserNotFound;
      }
      var existing := Today(records, userId, now, zone);
      if existing.Some? {
        return AlreadyMarked;
      }
      if descriptor.Some? {
        if Rejected(descriptor.value, user.value.faceDescriptor) {
          return FaceNotRecognized;
        }
      }
      MarkKeepsOncePerDay(users, records, userId, descriptor, now, zone);
      records := records + [NewRecord(userId, now)];
      outcome := Marked;
    }
  }
}
