/**
 * The route handlers, as methods of one object holding the database tables
 * and the session. Each handler that changes a table says exactly what the
 * table is afterwards; the read-only handlers say what they return in terms
 * of the queries in `Store`. `Valid()` is the consistency the handlers keep
 * between requests.
 */
module App {

  import opened Wrappers
  import opened PyText
  import opened Clock
  import opened Paths
  import opened Store

  /** How a request can fail. */
  datatype Failure =
    | Unauthorized                  // no session: a redirect to the login page, or 403 from the JSON route
    | InvalidCredentials            // the login form's single error, whichever field was wrong
    | Validation(message: string)   // the form is shown again with this message
    | NotFound(message: string)     // a 404 with this body

  datatype Reply<T> = Ok(value: T) | Fail(failure: Failure)

  const EndNotAfterStart: string := "End time must be after start time"
  const UserNotFound: string := "User not found"
  const EventNotFound: string := "Event not found"

  /** The confirmation page after creating an event. */
  datatype Created = Created(eventName: string, eventUrl: string, qrTarget: string, qrUrl: string)

  /** The edit page: the stored row, and the QR image's address when its file exists. */
  datatype EditView = EditView(event: Event, qrUrl: Option<string>)

  datatype DashboardView = DashboardView(username: string, created: seq<CreatedRow>, joined: seq<Listing>)

  type Csv = seq<seq<Field>>

  class EventApp {
    /** The server's digest and encoders. */
    const crypto: Crypto
    /** The Users table, which the application reads and never writes. */
    const users: seq<User>
    var events: seq<Event>
    var submissions: seq<Submission>
    var session: Option<Session>
    /** The next values the identity columns hand out. */
    var nextEventId: nat
    var nextSubmissionId: nat

    /**
     * Identity columns are unique, every stored event ends after it starts,
     * and every foreign key names an existing row. A session is a signed
     * cookie and may name a username the Users table no longer has.
     */
    ghost predicate Valid()
      reads this`events, this`submissions, this`nextEventId, this`nextSubmissionId
    {
      && EventsConsistent(events, users, nextEventId)
      && SubmissionsConsistent(submissions, events, users, nextSubmissionId)
    }

    /** A server started over an existing Users table and empty event tables. */
    constructor (crypto: Crypto, users: seq<User>)
      ensures Valid()
      ensures this.crypto == crypto && this.users == users
      ensures events == [] && submissions == [] && session == None
    {
      this.crypto := crypto;
      this.users := users;
      events := [];
      submissions := [];
      session := None;
      nextEventId := 1;
      nextSubmissionId := 1;
    }

    // ------------------------------------------------------------ login and logout

    /**
     * POST `/`: both fields are stripped; the login succeeds exactly when some
     * user has that username and a stored hash matching the password under
     * either encoding, and then the session holds that user.
     */
    method Login(username: string, password: string) returns (r: Reply<Session>)
      requires Valid()
      modifies this`session
      ensures Valid()
      ensures r.Ok? <==> exists u :: u in users && Authenticates(u, Strip(username), Strip(password), crypto)
      ensures r.Ok? ==> && session == Some(r.value) && r.value.username == Strip(username)
                        && exists u :: u in users && u.id == r.value.userId
                                       && Authenticates(u, Strip(username), Strip(password), crypto)
      ensures r.Fail? ==> r.failure == InvalidCredentials && session == old(session)
    {
      var name := Strip(username);
      var pw := Strip(password);
      var row := UserByCredentials(users, name, pw, crypto);
      if row.Some? {
        var u := row.value;
        assert u in users && Authenticates(u, name, pw, crypto);
        session := Some(Session(name, u.id));
        r := Ok(Session(name, u.id));
      } else {
        r := Fail(InvalidCredentials);
      }
    }

    /** GET `/logout`: the session is emptied, whether or not anyone was logged in. */
    method Logout()
      requires Valid()
      modifies this`session
      ensures Valid()
      ensures session == None
    {
      session := None;
    }

    // ------------------------------------------------------------ the event manager

    /**
     * POST `/create`. In order: no session, an end not after the start, and a
     * session username no user has are refused, and nothing is stored.
     * Otherwise one event is appended, owned by that user, with the slug path
     * derived from the name and start time.
     */
    method CreateEvent(name: string, description: string, start: DateTime, end: DateTime, host: string)
      returns (r: Reply<Created>)
      requires Valid() && WellFormed(start) && WellFormed(end)
      modifies this`events, this`nextEventId
      ensures Valid()
      ensures session.None? ==> r == Fail(Unauthorized)
      ensures session.Some? && !Before(start, end) ==> r == Fail(Validation(EndNotAfterStart))
      ensures session.Some? && Before(start, end) && UserByName(users, session.value.username).None?
              ==> r == Fail(NotFound(UserNotFound))
      ensures r.Fail? ==> events == old(events) && nextEventId == old(nextEventId)
      ensures r.Ok? <==> session.Some? && Before(start, end)
                         && exists u :: u in users && u.username == session.value.username
      ensures r.Ok? ==>
                var creator := UserByName(users, session.value.username).value;
                && events == old(events) + [Event(old(nextEventId), name, description, start, end,
                                                  EventPath(name, start), creator.id)]
                && nextEventId == old(nextEventId) + 1
                && r.value == Created(name, EventPath(name, start), QrTarget(host, name, start),
                                      QrUrlPrefix + QrFileName(name, start))
    {
      if session.None? {
        return Fail(Unauthorized);
      }
      if !Before(start, end) {
        return Fail(Validation(EndNotAfterStart));
      }
      var path := EventPath(name, start);
      var creator := UserByName(users, session.value.username);
      if creator.None? {
        return Fail(NotFound(UserNotFound));
      }
      var e := Event(nextEventId, name, description, start, end, path, creator.value.id);
      InsertEventKeepsConsistency(events, submissions, users, nextEventId, nextSubmissionId, e);
      events := events + [e];
      nextEventId := nextEventId + 1;
      r := Ok(Created(name, path, QrTarget(host, name, start), QrUrlPrefix + QrFileName(name, start)));
    }

    /**
     * POST `/edit/<id>`. No session, an unknown id, and an end not after the
     * start change nothing. Otherwise the name, description, start and end of
     * that event are replaced; its id, URL and creator, every other event,
     * and all submissions stay as they were.
     */
    method EditEvent(eventId: nat, name: string, description: string, start: DateTime, end: DateTime)
      returns (r: Reply<Event>)
      requires Valid() && WellFormed(start) && WellFormed(end)
      modifies this`events
      ensures Valid()
      ensures session.None? ==> r == Fail(Unauthorized)
      ensures session.Some? && EventById(old(events), eventId).None? ==> r == Fail(NotFound(EventNotFound))
      ensures session.Some? && EventById(old(events), eventId).Some? && !Before(start, end)
              ==> r == Fail(Validation(EndNotAfterStart))
      ensures r.Fail? ==> events == old(events)
      ensures r.Ok? <==> session.Some? && Before(start, end) && exists e :: e in old(events) && e.id == eventId
      ensures r.Ok? ==> events == UpdateEvent(old(events), eventId, name, description, start, end)
                        && r.value in events && r.value.id == eventId
    {
      if session.None? {
        return Fail(Unauthorized);
      }
      var found := EventById(events, eventId);
      if found.None? {
        return Fail(NotFound(EventNotFound));
      }
      if !Before(start, end) {
        return Fail(Validation(EndNotAfterStart));
      }
      UpdateKeepsConsistency(events, submissions, users, nextEventId, nextSubmissionId,
                             eventId, name, description, start, end);
      UpdateHoldsEdited(events, eventId, name, description, start, end, found.value);
      events := UpdateEvent(events, eventId, name, description, start, end);
      r := Ok(found.value.(name := name, description := description, start := start, end := end));
    }

    /**
     * GET `/edit/<id>`: the stored event, and the QR image address recomputed
     * from the stored name and start time, present only when that file exists.
     */
    method EditPage(eventId: nat, fileExists: string -> bool) returns (r: Reply<EditView>)
      requires Valid()
      ensures session.None? ==> r == Fail(Unauthorized)
      ensures r.Ok? <==> session.Some? && exists e :: e in events && e.id == eventId
      ensures r.Fail? && session.Some? ==> r.failure == NotFound(EventNotFound)
      ensures r.Ok? ==>
                && r.value.event in events && r.value.event.id == eventId
                && WellFormed(r.value.event.start)
                && var file := QrFileName(r.value.event.name, r.value.event.start);
                   r.value.qrUrl == if fileExists(QrDirectory + file) then Some(QrUrlPrefix + file) else None
    {
      if session.None? {
        return Fail(Unauthorized);
      }
      var found := EventById(events, eventId);
      if found.None? {
        return Fail(NotFound(EventNotFound));
      }
      var e := found.value;
      var file := QrFileName(e.name, e.start);
      var qrUrl := if fileExists(QrDirectory + file) then Some(QrUrlPrefix + file) else None;
      r := Ok(EditView(e, qrUrl));
    }

    /**
     * POST `/delete/<id>`: the event's submissions and then the event itself
     * are deleted; every other row stays. There is no existence check, and an
     * unknown id deletes nothing.
     */
    method DeleteEvent(eventId: nat) returns (r: Reply<()>)
      requires Valid()
      modifies this`events, this`submissions
      ensures Valid()
      ensures session.None? ==> r == Fail(Unauthorized) && events == old(events) && submissions == old(submissions)
      ensures session.Some? ==>
                && r == Ok(())
                && events == WithoutEvent(old(events), eventId)
                && submissions == WithoutSubmissionsOf(old(submissions), eventId)
      ensures (forall e :: e in old(events) ==> e.id != eventId) ==>
                events == old(events) && submissions == old(submissions)
    {
      if session.None? {
        return Fail(Unauthorized);
      }
      DeleteKeepsConsistency(events, submissions, users, nextEventId, nextSubmissionId, eventId);
      submissions := WithoutSubmissionsOf(submissions, eventId);
      events := WithoutEvent(events, eventId);
      r := Ok(());
    }

    // ------------------------------------------------------------ the public form

    /** GET `/event/<slug>`: the event whose stored URL is `/event/<slug>`. */
    method EventForm(slug: string) returns (r: Reply<Listing>)
      requires Valid()
      ensures r.Ok? <==> exists e :: e in events && e.url == EventPrefix + slug
      ensures r.Ok? ==> exists e :: e in events && e.url == EventPrefix + slug && r.value == ListingOf(e)
      ensures r.Fail? ==> r.failure == NotFound(EventNotFound)
    {
      var found := EventByUrl(events, EventPrefix + slug);
      if found.None? {
        return Fail(NotFound(EventNotFound));
      }
      r := Ok(ListingOf(found.value));
    }

    /**
     * POST `/event/<slug>`, open to anyone: for a known slug exactly one
     * submission is appended, against that event, carrying the form's fields,
     * the clock reading `now`, and the id of some user matching the name or
     * employee id (none when no user matches). An unknown slug stores nothing.
     */
    method SubmitAttendance(slug: string, name: string, employeeId: string, department: string, now: nat)
      returns (r: Reply<Listing>)
      requires Valid()
      modifies this`submissions, this`nextSubmissionId
      ensures Valid()
      ensures r.Ok? <==> exists e :: e in events && e.url == EventPrefix + slug
      ensures r.Fail? ==> r.failure == NotFound(EventNotFound)
                          && submissions == old(submissions) && nextSubmissionId == old(nextSubmissionId)
      ensures r.Ok? ==>
                && nextSubmissionId == old(nextSubmissionId) + 1
                && (exists e :: e in events && e.url == EventPrefix + slug && r.value == ListingOf(e)
                      && submissions == old(submissions) + [Submission(old(nextSubmissionId), e.id,
                                         AttendeeUserId(users, name, employeeId), name, employeeId, department, now)])
    {
      var found := EventByUrl(events, EventPrefix + slug);
      if found.None? {
        return Fail(NotFound(EventNotFound));
      }
      var e := found.value;
      var userId := AttendeeUserId(users, name, employeeId);
      var s := Submission(nextSubmissionId, e.id, userId, name, employeeId, department, now);
      InsertSubmissionKeepsConsistency(submissions, events, users, nextSubmissionId, s);
      submissions := submissions + [s];
      nextSubmissionId := nextSubmissionId + 1;
      r := Ok(ListingOf(e));
    }

    // ------------------------------------------------------------ reporting

    /** GET `/dashboard`: the session user's created events with counts, and the events they attended. */
    method Dashboard() returns (r: Reply<DashboardView>)
      requires Valid()
      ensures session.None? ==> r == Fail(Unauthorized)
      ensures session.Some? ==>
                r == Ok(DashboardView(session.value.username,
                                      CreatedEvents(events, submissions, session.value.userId),
                                      JoinedEvents(events, submissions, session.value.userId)))
    {
      if session.None? {
        return Fail(Unauthorized);
      }
      var userId := session.value.userId;
      var created := CreatedEvents(events, submissions, userId);
      var joined := JoinedEvents(events, submissions, userId);
      r := Ok(DashboardView(session.value.username, created, joined));
    }

    /** GET `/event/<id>/submissions`: the event's submissions, newest first; 403 without a session. */
    method EventSubmissions(eventId: nat) returns (r: Reply<seq<SubmissionView>>)
      requires Valid()
      ensures session.None? ==> r == Fail(Unauthorized)
      ensures session.Some? ==> r == Ok(SubmissionFeed(submissions, eventId))
    {
      if session.None? {
        return Fail(Unauthorized);
      }
      r := Ok(SubmissionFeed(submissions, eventId));
    }

    /**
     * GET `/export/<id>`: a header row, then one row per submission of the
     * event, in the order the query returns them.
     */
    method ExportCsv(eventId: nat) returns (r: Reply<Csv>)
      requires Valid()
      ensures session.None? ==> r == Fail(Unauthorized)
      ensures session.Some? ==>
                && r.Ok?
                && |r.value| == 1 + Attendance(submissions, eventId)
                && r.value[0] == CsvHeader
                && forall k :: 1 <= k < |r.value| ==> r.value[k] == CsvRow(SubmissionsOf(submissions, eventId)[k - 1])
    {
      if session.None? {
        return Fail(Unauthorized);
      }
      var rows := SubmissionsOf(submissions, eventId);
      var out: Csv := [CsvHeader];
      var i := 0;
      while i < |rows|
        invariant 0 <= i <= |rows|
        invariant |out| == 1 + i
        invariant out[0] == CsvHeader
        invariant forall k :: 1 <= k < |out| ==> out[k] == CsvRow(rows[k - 1])
      {
        out := out + [CsvRow(rows[i])];
        i := i + 1;
      }
      r := Ok(out);
    }
  }

}
