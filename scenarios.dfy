/**
 * Worked examples: concrete names, and request sequences a client can make,
 * proved from the contracts of the functions and handlers alone.
 */
module Scenarios {

  import opened Wrappers
  import opened Slug
  import opened Clock
  import opened Paths
  import opened Store
  import opened App
  import opened Sequences

  /** "Town Hall", "Town-Hall" and "Town -- Hall" all become "Town_Hall": each separator is one run of non-word characters. */
  lemma TownHallSlug(name: string, sep: string)
    requires sep == " " || sep == "-" || sep == " -- "
    requires name == "Town" + sep + "Hall"
    ensures Slugify(name) == "Town_Hall"
  {
    SlugifyJoinsWords(name, "Town", sep, "Hall");
  }

  /** 2024-01-10 09:00 becomes the suffix `20240110_0900`. */
  lemma TownHallSuffix()
    ensures TimeSuffix(DateTime(2024, 1, 10, 9, 0)) == "20240110_0900"
  { }

  /** Two events named "Town Hall" and "Town-Hall" that start at the same minute share their URL and QR file. */
  lemma TownHallCollision(a: string, b: string, start: DateTime)
    requires a == "Town" + " " + "Hall" && b == "Town" + "-" + "Hall" && WellFormed(start)
    ensures EventPath(a, start) == EventPath(b, start)
    ensures QrFileName(a, start) == QrFileName(b, start)
  {
    TownHallSlug(a, " ");
    TownHallSlug(b, "-");
    PathCollision(a, start, b, start);
  }

  /** Two rows of a table with distinct ids that carry the same id are the same row. */
  lemma SameIdSameEvent(events: seq<Event>, e: Event, f: Event)
    requires DistinctEventIds(events) && e in events && f in events && e.id == f.id
    ensures e == f
  {
    var i :| 0 <= i < |events| && events[i] == e;
    var j :| 0 <= j < |events| && events[j] == f;
    assert i == j;
  }

  /**
   * A signed-in session whose username the Users table does not have (the
   * row was removed after login, or the cookie was signed with the
   * application's fixed key): creating an event answers "User not found"
   * and stores nothing.
   */
  method StaleSessionCreate(crypto: Crypto, username: string, userId: nat, name: string, description: string,
                            start: DateTime, end: DateTime, host: string)
    returns (r: Reply<Created>)
    requires WellFormed(start) && WellFormed(end) && Before(start, end)
    ensures r == Fail(NotFound(UserNotFound))
  {
    var app := new EventApp(crypto, []);
    app.session := Some(Session(username, userId));
    r := app.CreateEvent(name, description, start, end, host);
  }

  /**
   * Creating an event and then opening its edit page: the page shows the row
   * just inserted, with the URL handed back at creation, and, once the QR file
   * exists, the same QR image address the confirmation page showed.
   */
  method CreateThenEdit(app: EventApp, name: string, description: string, start: DateTime, end: DateTime,
                        host: string, fileExists: string -> bool)
    returns (created: Reply<Created>, page: Reply<EditView>)
    requires app.Valid() && WellFormed(start) && WellFormed(end)
    modifies app`events, app`nextEventId
    ensures app.Valid()
    ensures created.Ok? ==> page.Ok?
    ensures created.Ok? ==>
              && page.value.event.name == name && page.value.event.start == start
              && page.value.event.url == created.value.eventUrl
              && (fileExists(QrDirectory + QrFileName(name, start)) ==> page.value.qrUrl == Some(created.value.qrUrl))
  {
    var id := app.nextEventId;
    created := app.CreateEvent(name, description, start, end, host);
    page := app.EditPage(id, fileExists);
    if created.Ok? {
      var inserted := app.events[|app.events| - 1];
      assert inserted.id == id && inserted in app.events;
      SameIdSameEvent(app.events, page.value.event, inserted);
    }
  }

  /**
   * Deleting the only event at a URL and then visiting that URL: the public
   * form answers "Event not found".
   */
  method DeleteThenVisit(app: EventApp, eventId: nat, slug: string) returns (visit: Reply<Listing>)
    requires app.Valid() && app.session.Some?
    requires forall e :: e in app.events && e.url == EventPrefix + slug ==> e.id == eventId
    modifies app`events, app`submissions
    ensures app.Valid()
    ensures visit == Fail(NotFound(EventNotFound))
  {
    var deleted := app.DeleteEvent(eventId);
    visit := app.EventForm(slug);
  }

  /**
   * Editing an event's name or start moves the QR file name the edit page
   * looks for, but not the stored URL: the edit page then looks for the image
   * made at creation exactly when the slug and the start are unchanged.
   */
  method EditThenReopen(app: EventApp, eventId: nat, createdName: string, createdStart: DateTime,
                        name: string, description: string, start: DateTime, end: DateTime,
                        fileExists: string -> bool)
    returns (edited: Reply<Event>, page: Reply<EditView>)
    requires app.Valid() && WellFormed(createdStart) && WellFormed(start) && WellFormed(end)
    requires forall e :: e in app.events && e.id == eventId ==> e.url == EventPath(createdName, createdStart)
    modifies app`events
    ensures app.Valid()
    ensures edited.Ok? ==> page.Ok?
    ensures edited.Ok? ==>
              && page.value.event == edited.value
              && page.value.event.name == name && page.value.event.start == start
              && page.value.event.url == EventPath(createdName, createdStart)
              && (page.value.event.url[|EventPrefix|..] + QrExtension == QrFileName(name, start)
                  <==> Slugify(createdName) == Slugify(name) && createdStart == start)
  {
    ghost var before := app.events;
    edited := app.EditEvent(eventId, name, description, start, end);
    page := app.EditPage(eventId, fileExists);
    if edited.Ok? {
      SameIdSameEvent(app.events, page.value.event, edited.value);
      var k :| 0 <= k < |app.events| && app.events[k] == edited.value;
      assert before[k].id == eventId && before[k].url == edited.value.url;
      assert before[k] in before;
      QrFileFollowsPath(createdName, createdStart, name, start);
    }
  }

  /**
   * An attendee submits the form of an event, and a signed-in user then
   * exports that event: the file is one row longer than before the
   * submission, and its last row holds what the attendee typed and the clock
   * reading taken when the form arrived.
   */
  method SubmitThenExport(app: EventApp, eventId: nat, slug: string, name: string, employeeId: string,
                          department: string, now: nat)
    returns (before: Reply<Csv>, after: Reply<Csv>)
    requires app.Valid() && app.session.Some?
    requires exists e :: e in app.events && e.url == EventPrefix + slug
    requires forall e :: e in app.events && e.url == EventPrefix + slug ==> e.id == eventId
    modifies app`submissions, app`nextSubmissionId
    ensures app.Valid()
    ensures before.Ok? && after.Ok?
    ensures |after.value| == |before.value| + 1
    ensures after.value[..|before.value|] == before.value
    ensures 1 <= |before.value|
    ensures multiset(after.value[1..]) == multiset(before.value[1..]) + multiset{after.value[|before.value|]}
    ensures after.value[|before.value|] == CsvRow(Submission(old(app.nextSubmissionId), eventId,
                                                  AttendeeUserId(app.users, name, employeeId),
                                                  name, employeeId, department, now))
  {
    before := app.ExportCsv(eventId);
    ghost var rowsBefore := SubmissionsOf(app.submissions, eventId);
    ghost var old_subs := app.submissions;
    var submitted := app.SubmitAttendance(slug, name, employeeId, department, now);
    after := app.ExportCsv(eventId);
    var s := app.submissions[|app.submissions| - 1];
    assert app.submissions == old_subs + [s];
    SubmissionsOfAppend(old_subs, s, eventId);
    assert SubmissionsOf(app.submissions, eventId) == rowsBefore + [s];
    forall k | 0 <= k < |before.value| ensures after.value[k] == before.value[k] {
      if k > 0 {
        assert SubmissionsOf(app.submissions, eventId)[k - 1] == rowsBefore[k - 1];
      }
    }
    ExtendsByOne(before.value, after.value, 1);
  }
}
