/**
 * The three tables (Users, Events, Submissions), the session record, and the
 * SQL queries the handlers run, each read with its ordinary relational
 * meaning over in-memory rows. A table is a sequence of rows in insertion
 * order; `fetchone()` on a query without ORDER BY returns some matching
 * row, which the model takes to be the first.
 */
module Store {

  import opened Wrappers
  import opened Clock
  import opened Ordering
  import opened Sequences

  newtype byte = x: int | 0 <= x < 256

  /**
   * The password digest pipeline, left uninterpreted: `digest` stands for
   * `sha256(...).hexdigest().upper()`, and the other two for
   * `str.encode("utf-16le")` and `str.encode("utf-8")`.
   */
  datatype Crypto = Crypto(digest: seq<byte> -> string, utf16le: string -> seq<byte>, utf8: string -> seq<byte>)

  /** A stored hash accepts a password under either encoding. */
  predicate PasswordMatches(stored: string, password: string, crypto: Crypto)
  {
    stored == crypto.digest(crypto.utf16le(password)) || stored == crypto.digest(crypto.utf8(password))
  }

  datatype User = User(id: nat, username: string, password: string, employeeId: Option<string>)

  datatype Event = Event(id: nat, name: string, description: string, start: DateTime, end: DateTime,
                         url: string, creatorId: nat)

  /** `timestamp` is the server clock's reading when the form was posted. */
  datatype Submission = Submission(id: nat, eventId: nat, userId: Option<nat>, name: string,
                                   employeeId: string, department: string, timestamp: nat)

  /** The signed session cookie's `username` and `user_id`, which login always sets together. */
  datatype Session = Session(username: string, userId: nat)

  // ---------------------------------------------------------------- generic row operations

  /** `fetchone()` of a filtered query. */
  function First<T>(rows: seq<T>, p: T -> bool): (r: Option<T>)
    ensures r.Some? ==> r.value in rows && p(r.value)
    ensures r.None? <==> forall i :: 0 <= i < |rows| ==> !p(rows[i])
  {
    if rows == [] then None
    else if p(rows[0]) then Some(rows[0])
    else First(rows[1..], p)
  }

  /** `WHERE p` over a table, keeping the table's order. */
  function Filter<T(!new)>(rows: seq<T>, p: T -> bool): (r: seq<T>)
    ensures |r| <= |rows|
    ensures forall x :: x in r <==> x in rows && p(x)
    ensures (forall x :: x in rows ==> p(x)) ==> r == rows
  {
    if rows == [] then []
    else
      assert rows == [rows[0]] + rows[1..];
      (if p(rows[0]) then [rows[0]] else []) + Filter(rows[1..], p)
  }

  /** `WHERE p` keeps every row that satisfies it as often as the table holds it, and no other row. */
  lemma {:induction false} FilterCounts<T(!new)>(rows: seq<T>, p: T -> bool)
    ensures forall x :: multiset(Filter(rows, p))[x] == if p(x) then multiset(rows)[x] else 0
  {
    if rows != [] {
      FilterCounts(rows[1..], p);
      assert rows == [rows[0]] + rows[1..];
    }
  }

  /** `SELECT DISTINCT`: every row once. */
  function Distinct<T(==,!new)>(rows: seq<T>): (r: seq<T>)
    ensures forall x :: multiset(r)[x] == if x in rows then 1 else 0
  {
    if rows == [] then []
    else
      assert rows == [rows[0]] + rows[1..];
      (if rows[0] in rows[1..] then [] else [rows[0]]) + Distinct(rows[1..])
  }

  // ---------------------------------------------------------------- lookups

  /** The login query's condition on one row of Users. */
  predicate Authenticates(u: User, username: string, password: string, crypto: Crypto)
  {
    u.username == username && PasswordMatches(u.password, password, crypto)
  }

  /** `SELECT UserID FROM Users WHERE Username=? AND (Password=? OR Password=?)`. */
  function UserByCredentials(users: seq<User>, username: string, password: string, crypto: Crypto): (r: Option<User>)
    ensures r.Some? ==> r.value in users && r.value.username == username
                        && PasswordMatches(r.value.password, password, crypto)
    ensures r.None? <==> forall u :: u in users ==> !Authenticates(u, username, password, crypto)
  {
    First(users, (u: User) => Authenticates(u, username, password, crypto))
  }

  /** `SELECT UserID FROM Users WHERE Username=?`. */
  function UserByName(users: seq<User>, username: string): (r: Option<User>)
    ensures r.Some? ==> r.value in users && r.value.username == username
    ensures r.None? <==> forall u :: u in users ==> u.username != username
  {
    First(users, (u: User) => u.username == username)
  }

  /**
   * `WHERE Username=? OR EmployeeID=?` for the attendee's name and employee id.
   * A NULL EmployeeID equals nothing, so only a user's name can match then.
   */
  predicate IsAttendee(u: User, name: string, employeeId: string)
  {
    u.username == name || u.employeeId == Some(employeeId)
  }

  /** Best-effort resolution of an attendee to a registered user's id. */
  function AttendeeUserId(users: seq<User>, name: string, employeeId: string): (r: Option<nat>)
    ensures r.Some? ==> exists u :: u in users && u.id == r.value && IsAttendee(u, name, employeeId)
    ensures r.None? <==> forall u :: u in users ==> !IsAttendee(u, name, employeeId)
  {
    var u := First(users, (u: User) => IsAttendee(u, name, employeeId));
    if u.Some? then Some(u.value.id) else None
  }

  /** `SELECT * FROM Events WHERE EventID=?`. */
  function EventById(events: seq<Event>, id: nat): (r: Option<Event>)
    ensures r.Some? ==> r.value in events && r.value.id == id
    ensures r.None? <==> forall e :: e in events ==> e.id != id
  {
    First(events, (e: Event) => e.id == id)
  }

  /** `SELECT ... FROM Events WHERE URL=?`. */
  function EventByUrl(events: seq<Event>, url: string): (r: Option<Event>)
    ensures r.Some? ==> r.value in events && r.value.url == url
    ensures r.None? <==> forall e :: e in events ==> e.url != url
  {
    First(events, (e: Event) => e.url == url)
  }

  /** `SELECT ... FROM Submissions WHERE EventID=?`, in table order. */
  function SubmissionsOf(subs: seq<Submission>, eventId: nat): (r: seq<Submission>)
    ensures forall s :: s in r <==> s in subs && s.eventId == eventId
  {
    Filter(subs, (s: Submission) => s.eventId == eventId)
  }

  /** The number of submission rows recorded against an event: `COUNT(S.SubmissionID)`. */
  function Attendance(subs: seq<Submission>, eventId: nat): nat
  {
    |SubmissionsOf(subs, eventId)|
  }

  /** The query over a table with a first row: that row if it matches, then the query over the rest. */
  lemma SubmissionsOfCons(h: Submission, rest: seq<Submission>, eventId: nat)
    ensures SubmissionsOf([h] + rest, eventId)
            == (if h.eventId == eventId then [h] else []) + SubmissionsOf(rest, eventId)
  {
    assert ([h] + rest)[1..] == rest;
  }

  /** A row appended to the table comes last among its event's submissions; the others keep their order. */
  lemma {:induction false} SubmissionsOfAppend(subs: seq<Submission>, s: Submission, eventId: nat)
    ensures SubmissionsOf(subs + [s], eventId)
            == SubmissionsOf(subs, eventId) + (if s.eventId == eventId then [s] else [])
  {
    var last := if s.eventId == eventId then [s] else [];
    if subs == [] {
      SubmissionsOfCons(s, [], eventId);
      assert [] + [s] == [s] + [];
    } else {
      var h, rest := subs[0], subs[1..];
      var first := if h.eventId == eventId then [h] else [];
      assert subs + [s] == [h] + (rest + [s]);
      assert subs == [h] + rest;
      SubmissionsOfCons(h, rest + [s], eventId);
      SubmissionsOfCons(h, rest, eventId);
      SubmissionsOfAppend(rest, s, eventId);
      AppendAssoc(first, SubmissionsOf(rest, eventId), last);
    }
  }

  /** An event has no attendance exactly when no submission refers to it. */
  lemma AttendanceZero(subs: seq<Submission>, eventId: nat)
    ensures Attendance(subs, eventId) == 0 <==> forall s :: s in subs ==> s.eventId != eventId
  {
    var r := SubmissionsOf(subs, eventId);
    if r != [] {
      assert r[0] in r;
    }
  }

  // ---------------------------------------------------------------- identity columns and deletion

  /** The EventID identity column holds no value twice. */
  ghost predicate DistinctEventIds(events: seq<Event>)
  {
    DistinctBy(events, EventId)
  }

  /** The SubmissionID identity column holds no value twice. */
  ghost predicate DistinctSubmissionIds(subs: seq<Submission>)
  {
    DistinctBy(subs, SubmissionId)
  }

  /**
   * `UPDATE Events SET EventName=?, Description=?, StartTime=?, EndTime=? WHERE EventID=?`:
   * those four columns of the rows with that id take the new values, and
   * nothing else changes.
   */
  function UpdateEvent(events: seq<Event>, id: nat, name: string, description: string,
                       start: DateTime, end: DateTime): (r: seq<Event>)
    ensures |r| == |events|
    ensures forall i :: 0 <= i < |r| ==>
              r[i].id == events[i].id && r[i].url == events[i].url && r[i].creatorId == events[i].creatorId
    ensures forall i :: 0 <= i < |r| && events[i].id != id ==> r[i] == events[i]
    ensures forall i :: 0 <= i < |r| && events[i].id == id ==>
              r[i].name == name && r[i].description == description && r[i].start == start && r[i].end == end
  {
    seq(|events|, i requires 0 <= i < |events| =>
      if events[i].id == id
      then events[i].(name := name, description := description, start := start, end := end)
      else events[i])
  }

  /**
   * The Events table's consistency: distinct ids below the next identity
   * value, well-formed times with the end after the start, and an existing
   * creator for every event.
   */
  ghost predicate EventsConsistent(events: seq<Event>, users: seq<User>, nextId: nat)
  {
    && DistinctEventIds(events)
    && (forall e :: e in events ==> e.id < nextId)
    && (forall e :: e in events ==> WellFormed(e.start) && WellFormed(e.end) && Before(e.start, e.end))
    && (forall e :: e in events ==> exists u :: u in users && u.id == e.creatorId)
  }

  /**
   * The Submissions table's consistency: distinct ids below the next identity
   * value, and every event and user it refers to exists.
   */
  ghost predicate SubmissionsConsistent(subs: seq<Submission>, events: seq<Event>, users: seq<User>, nextId: nat)
  {
    && DistinctSubmissionIds(subs)
    && (forall s :: s in subs ==> s.id < nextId)
    && (forall s :: s in subs ==> exists e :: e in events && e.id == s.eventId)
    && (forall s :: s in subs && s.userId.Some? ==> exists u :: u in users && u.id == s.userId.value)
  }

  /** The edited row is in the updated table, with the four new columns and everything else kept. */
  lemma UpdateHoldsEdited(events: seq<Event>, id: nat, name: string, description: string,
                          start: DateTime, end: DateTime, e: Event)
    requires e in events && e.id == id
    ensures e.(name := name, description := description, start := start, end := end)
            in UpdateEvent(events, id, name, description, start, end)
  {
    var k :| 0 <= k < |events| && events[k] == e;
    assert UpdateEvent(events, id, name, description, start, end)[k]
           == e.(name := name, description := description, start := start, end := end);
  }

  /** A valid edit keeps both tables consistent. */
  lemma UpdateKeepsConsistency(events: seq<Event>, subs: seq<Submission>, users: seq<User>, nextEventId: nat,
                               nextSubmissionId: nat, id: nat, name: string, description: string,
                               start: DateTime, end: DateTime)
    requires EventsConsistent(events, users, nextEventId)
    requires SubmissionsConsistent(subs, events, users, nextSubmissionId)
    requires WellFormed(start) && WellFormed(end) && Before(start, end)
    ensures var updated := UpdateEvent(events, id, name, description, start, end);
            EventsConsistent(updated, users, nextEventId) && SubmissionsConsistent(subs, updated, users, nextSubmissionId)
  {
    var updated := UpdateEvent(events, id, name, description, start, end);
    forall e | e in updated
      ensures e.id < nextEventId && WellFormed(e.start) && WellFormed(e.end) && Before(e.start, e.end)
      ensures exists u :: u in users && u.id == e.creatorId
    {
      var i :| 0 <= i < |updated| && updated[i] == e;
      assert events[i] in events;
    }
    forall s | s in subs ensures exists e :: e in updated && e.id == s.eventId {
      var e :| e in events && e.id == s.eventId;
      var i :| 0 <= i < |events| && events[i] == e;
      assert updated[i] in updated;
    }
  }

  /** Inserting an event under the next identity value keeps both tables consistent. */
  lemma InsertEventKeepsConsistency(events: seq<Event>, subs: seq<Submission>, users: seq<User>,
                                    nextEventId: nat, nextSubmissionId: nat, e: Event)
    requires EventsConsistent(events, users, nextEventId)
    requires SubmissionsConsistent(subs, events, users, nextSubmissionId)
    requires e.id == nextEventId && WellFormed(e.start) && WellFormed(e.end) && Before(e.start, e.end)
    requires exists u :: u in users && u.id == e.creatorId
    ensures EventsConsistent(events + [e], users, nextEventId + 1)
    ensures SubmissionsConsistent(subs, events + [e], users, nextSubmissionId)
  {
    var grown := events + [e];
    forall x | x in grown ensures x in events || x == e { }
    forall s | s in subs ensures exists x :: x in grown && x.id == s.eventId {
      var x :| x in events && x.id == s.eventId;
      assert x in grown;
    }
  }

  /** Inserting a submission against an existing event keeps the table consistent. */
  lemma InsertSubmissionKeepsConsistency(subs: seq<Submission>, events: seq<Event>, users: seq<User>,
                                         nextId: nat, s: Submission)
    requires SubmissionsConsistent(subs, events, users, nextId)
    requires s.id == nextId && (exists e :: e in events && e.id == s.eventId)
    requires s.userId.Some? ==> exists u :: u in users && u.id == s.userId.value
    ensures SubmissionsConsistent(subs + [s], events, users, nextId + 1)
  {
    var grown := subs + [s];
    forall x | x in grown ensures x in subs || x == s { }
  }

  /** The cascading delete keeps both tables consistent. */
  lemma DeleteKeepsConsistency(events: seq<Event>, subs: seq<Submission>, users: seq<User>,
                               nextEventId: nat, nextSubmissionId: nat, id: nat)
    requires EventsConsistent(events, users, nextEventId)
    requires SubmissionsConsistent(subs, events, users, nextSubmissionId)
    ensures EventsConsistent(WithoutEvent(events, id), users, nextEventId)
    ensures SubmissionsConsistent(WithoutSubmissionsOf(subs, id), WithoutEvent(events, id), users, nextSubmissionId)
  {
    WithoutEventKeepsDistinct(events, id);
    WithoutSubmissionsKeepsDistinct(subs, id);
    var es, ss := WithoutEvent(events, id), WithoutSubmissionsOf(subs, id);
    forall s | s in ss ensures exists e :: e in es && e.id == s.eventId {
      var e :| e in events && e.id == s.eventId;
      assert e in es;
    }
  }

  /** `DELETE FROM Events WHERE EventID=?`. */
  function WithoutEvent(events: seq<Event>, id: nat): (r: seq<Event>)
    ensures |r| <= |events|
    ensures forall e :: e in r <==> e in events && e.id != id
    ensures (forall e :: e in events ==> e.id != id) ==> r == events
  {
    Filter(events, OtherEvent(id))
  }

  /** The rows a `DELETE ... WHERE EventID=?` keeps. */
  function OtherEvent(id: nat): Event -> bool
  {
    (e: Event) => e.id != id
  }

  function EventId(e: Event): nat
  {
    e.id
  }

  /** `DELETE FROM Submissions WHERE EventID=?`. */
  function WithoutSubmissionsOf(subs: seq<Submission>, eventId: nat): (r: seq<Submission>)
    ensures |r| <= |subs|
    ensures forall s :: s in r <==> s in subs && s.eventId != eventId
    ensures (forall s :: s in subs ==> s.eventId != eventId) ==> r == subs
  {
    Filter(subs, OtherEventsSubmission(eventId))
  }

  /** The rows a `DELETE FROM Submissions WHERE EventID=?` keeps. */
  function OtherEventsSubmission(eventId: nat): Submission -> bool
  {
    (s: Submission) => s.eventId != eventId
  }

  function SubmissionId(s: Submission): nat
  {
    s.id
  }

  /** No two rows share a value of `key`. */
  ghost predicate DistinctBy<T>(rows: seq<T>, key: T -> nat)
  {
    forall i, j :: 0 <= i < j < |rows| ==> key(rows[i]) != key(rows[j])
  }

  /** Filtering keeps a column that is distinct across rows distinct: the result is a subsequence. */
  lemma {:induction false} FilterKeepsDistinct<T(!new)>(rows: seq<T>, p: T -> bool, key: T -> nat)
    requires DistinctBy(rows, key)
    ensures DistinctBy(Filter(rows, p), key)
  {
    if rows != [] {
      var tail := rows[1..];
      var rest := Filter(tail, p);
      var head := if p(rows[0]) then [rows[0]] else [];
      var r := Filter(rows, p);
      assert r == head + rest;
      forall i, j | 0 <= i < j < |tail| ensures key(tail[i]) != key(tail[j]) {
        assert tail[i] == rows[i + 1] && tail[j] == rows[j + 1];
      }
      FilterKeepsDistinct(tail, p, key);
      forall x | x in rest ensures key(x) != key(rows[0]) {
        var k :| 0 <= k < |tail| && tail[k] == x;
        assert rows[k + 1] == x;
      }
      forall i, j | 0 <= i < j < |r| ensures key(r[i]) != key(r[j]) {
        var n := |head|;
        assert r[j] == rest[j - n] && rest[j - n] in rest;
        if n <= i {
          assert r[i] == rest[i - n];
        }
      }
    }
  }

  /** Deleting events keeps the identity column distinct. */
  lemma WithoutEventKeepsDistinct(events: seq<Event>, id: nat)
    requires DistinctEventIds(events)
    ensures DistinctEventIds(WithoutEvent(events, id))
  {
    FilterKeepsDistinct(events, OtherEvent(id), EventId);
  }

  /** Deleting submissions keeps the identity column distinct. */
  lemma WithoutSubmissionsKeepsDistinct(subs: seq<Submission>, eventId: nat)
    requires DistinctSubmissionIds(subs)
    ensures DistinctSubmissionIds(WithoutSubmissionsOf(subs, eventId))
  {
    FilterKeepsDistinct(subs, OtherEventsSubmission(eventId), SubmissionId);
  }

  // ---------------------------------------------------------------- the dashboard

  /** The five event columns the dashboard queries select. */
  datatype Listing = Listing(id: nat, name: string, description: string, start: DateTime, end: DateTime)

  function ListingOf(e: Event): Listing
  {
    Listing(e.id, e.name, e.description, e.start, e.end)
  }

  function ListingKey(l: Listing): int
  {
    Key(l.start)
  }

  datatype CreatedRow = CreatedRow(listing: Listing, attendance: nat)

  function CreatedKey(row: CreatedRow): int
  {
    Key(row.listing.start)
  }

  /** An event together with `COUNT(S.SubmissionID)` over its left-joined submissions. */
  function SummaryOf(e: Event, subs: seq<Submission>): CreatedRow
  {
    CreatedRow(ListingOf(e), Attendance(subs, e.id))
  }

  function Summaries(es: seq<Event>, subs: seq<Submission>): (r: seq<CreatedRow>)
    ensures |r| == |es|
    ensures forall i :: 0 <= i < |es| ==> r[i] == SummaryOf(es[i], subs)
  {
    if es == [] then [] else [SummaryOf(es[0], subs)] + Summaries(es[1..], subs)
  }

  /** `WHERE E.CreatorID=?`: the user's events, in table order. */
  function CreatedBy(events: seq<Event>, userId: nat): (r: seq<Event>)
    ensures forall e :: e in r <==> e in events && e.creatorId == userId
  {
    Filter(events, (e: Event) => e.creatorId == userId)
  }

  lemma SummariesMembership(es: seq<Event>, subs: seq<Submission>, row: CreatedRow)
    ensures row in Summaries(es, subs) <==> exists e :: e in es && row == SummaryOf(e, subs)
  {
    var r := Summaries(es, subs);
    if row in r {
      var i :| 0 <= i < |r| && r[i] == row;
      assert es[i] in es;
    }
  }

  lemma CreatedMembership(events: seq<Event>, subs: seq<Submission>, userId: nat, row: CreatedRow)
    ensures row in SortDesc(Summaries(CreatedBy(events, userId), subs), CreatedKey)
            <==> exists e :: e in events && e.creatorId == userId && row == SummaryOf(e, subs)
  {
    var mine := CreatedBy(events, userId);
    var unsorted := Summaries(mine, subs);
    assert row in SortDesc(unsorted, CreatedKey) <==> row in multiset(unsorted);
    SummariesMembership(mine, subs, row);
  }

  /**
   * The events a user created, each with its attendance count (zero when it
   * has no submissions), latest start first.
   */
  function CreatedEvents(events: seq<Event>, subs: seq<Submission>, userId: nat): (r: seq<CreatedRow>)
    ensures SortedDesc(r, CreatedKey)
    ensures |r| == |CreatedBy(events, userId)|
    ensures forall row :: row in r <==> exists e :: e in events && e.creatorId == userId && row == SummaryOf(e, subs)
    ensures forall row :: row in r ==> row.attendance == Attendance(subs, row.listing.id)
  {
    var r := SortDesc(Summaries(CreatedBy(events, userId), subs), CreatedKey);
    forall row ensures row in r <==> exists e :: e in events && e.creatorId == userId && row == SummaryOf(e, subs) {
      CreatedMembership(events, subs, userId, row);
    }
    r
  }

  /** Some submission of this user is recorded against this event. */
  ghost predicate AttendedBy(subs: seq<Submission>, eventId: nat, userId: nat)
  {
    exists s :: s in subs && s.eventId == eventId && s.userId == Some(userId)
  }

  function Listings(es: seq<Event>): (r: seq<Listing>)
    ensures forall x :: x in r <==> exists e :: e in es && x == ListingOf(e)
  {
    if es == [] then [] else
      assert forall e :: e in es <==> e == es[0] || e in es[1..];
      [ListingOf(es[0])] + Listings(es[1..])
  }

  /** `Events E INNER JOIN Submissions S ON E.EventID = S.EventID WHERE S.UserID=?`, before DISTINCT. */
  function JoinRows(events: seq<Event>, subs: seq<Submission>, userId: nat): (r: seq<Listing>)
    ensures forall x :: x in r <==> exists e :: e in events && x == ListingOf(e) && AttendedBy(subs, e.id, userId)
  {
    if subs == [] then []
    else
      var s := subs[0];
      var here := if s.userId == Some(userId) then Listings(Filter(events, (e: Event) => e.id == s.eventId)) else [];
      assert forall t :: t in subs <==> t == s || t in subs[1..];
      here + JoinRows(events, subs[1..], userId)
  }

  /**
   * The events a user attended (submitted a form for), each listed once,
   * latest start first.
   */
  function JoinedEvents(events: seq<Event>, subs: seq<Submission>, userId: nat): (r: seq<Listing>)
    ensures SortedDesc(r, ListingKey)
    ensures forall x :: multiset(r)[x] <= 1
    ensures forall x :: x in r <==> exists e :: e in events && x == ListingOf(e) && AttendedBy(subs, e.id, userId)
  {
    var rows := JoinRows(events, subs, userId);
    var d := Distinct(rows);
    var r := SortDesc(d, ListingKey);
    assert multiset(r) == multiset(d);
    forall x ensures x in r <==> x in rows {
      assert x in r <==> x in multiset(d);
    }
    r
  }

  // ---------------------------------------------------------------- the submission feed

  /** One element of the JSON list of an event's submissions. */
  datatype SubmissionView = SubmissionView(id: nat, name: string, employeeId: string, department: string, timestamp: nat)

  function ViewOf(s: Submission): SubmissionView
  {
    SubmissionView(s.id, s.name, s.employeeId, s.department, s.timestamp)
  }

  function ViewKey(v: SubmissionView): int
  {
    v.timestamp
  }

  function Views(subs: seq<Submission>): (r: seq<SubmissionView>)
    ensures |r| == |subs|
    ensures forall v :: v in r <==> exists s :: s in subs && v == ViewOf(s)
  {
    if subs == [] then [] else
      assert forall s :: s in subs <==> s == subs[0] || s in subs[1..];
      [ViewOf(subs[0])] + Views(subs[1..])
  }

  /** An event's submissions, newest first (`ORDER BY Timestamp DESC`). */
  function SubmissionFeed(subs: seq<Submission>, eventId: nat): (r: seq<SubmissionView>)
    ensures SortedDesc(r, ViewKey)
    ensures |r| == Attendance(subs, eventId)
    ensures forall v :: v in r <==> exists s :: s in subs && s.eventId == eventId && v == ViewOf(s)
  {
    var mine := SubmissionsOf(subs, eventId);
    var r := SortDesc(Views(mine), ViewKey);
    forall v ensures v in r <==> v in Views(mine) {
      assert v in r <==> v in multiset(Views(mine));
    }
    r
  }

  // ---------------------------------------------------------------- CSV export

  /** A CSV cell: text, or a timestamp written out by the CSV writer. */
  datatype Field = Text(text: string) | Stamp(instant: nat)

  const CsvHeader: seq<Field> := [Text("Name"), Text("EmployeeID"), Text("Department"), Text("Timestamp")]

  /** A submission's value in the named column of the export query, as `row.Name` and so on read it. */
  function Column(s: Submission, column: string): Option<Field>
  {
    match column
    case "Name" => Some(Text(s.name))
    case "EmployeeID" => Some(Text(s.employeeId))
    case "Department" => Some(Text(s.department))
    case "Timestamp" => Some(Stamp(s.timestamp))
    case _ => None
  }

  /** One submission's row: each cell holds the column its header cell names. */
  function CsvRow(s: Submission): (r: seq<Field>)
    ensures |r| == |CsvHeader|
    ensures forall k :: 0 <= k < |CsvHeader| ==> CsvHeader[k].Text? && Column(s, CsvHeader[k].text) == Some(r[k])
  {
    [Text(s.name), Text(s.employeeId), Text(s.department), Stamp(s.timestamp)]
  }

}
