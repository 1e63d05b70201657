/**
  The monitor's data model: the activities the course page lists, the details the
  extractor reads from an activity page, the per-course record kept in `courseData`,
  the reminder ledgers' entries and the kinds of message sent to the channel.
 */
module Records {
  import opened Optional
  import opened JsText
  import opened Dates

  /** One activity of a course section, as the course page lists it. */
  datatype Activity = Activity(name: string, kind: string, url: string)

  /** A named section with its activities, in page order. */
  datatype Section = Section(name: string, activities: seq<Activity>)

  /** A file attached to an assignment. */
  datatype Attachment = Attachment(url: string, fileName: string)

  /**
    A stored details record. An assignment's record has `opened`, `deadline` and
    `attachments`; a quiz's has `opened` and `closed`; a field the record does not
    have is `None`.
   */
  datatype Details = Details(opening: Option<string>, deadline: Option<string>,
                             closing: Option<string>, attachments: Option<seq<Attachment>>)

  /** What extractAssignmentDetails returns: a failure, or the three fields read from the page. */
  datatype AssignFetch = AssignFailed | AssignFetched(opening: string, deadline: string, attachments: seq<Attachment>)

  /** What extractQuizDetails returns. */
  datatype QuizFetch = QuizFailed | QuizFetched(opening: string, closing: string)

  /** The page extractor as seen by one phase of a check: what each activity page yields. */
  datatype Extractor = Extractor(assign: string -> AssignFetch, quiz: string -> QuizFetch)

  /**
    What fetching a file URL yields: a failure (no cookies, a network error, a status
    other than 200), or a body with its content type and size, and whether handing it
    to the channel as a document would succeed.
   */
  datatype Download = DownloadFailed | Downloaded(contentType: string, size: nat, deliveryOk: bool)

  datatype FileRecord = FileRecord(fileName: string, sentAt: int)
  datatype NoteRecord = NoteRecord(sentAt: int, activityName: string)

  /** A reminder ledger entry; the deadline is an instant, absent in entries without one. */
  datatype ReminderEntry = ReminderEntry(sentAt: int, deadline: Option<int>, courseName: string, activityName: string)

  /** The record `courseData[courseId]`. */
  datatype Course = Course(name: string, url: string, sections: seq<Section>,
                           assignments: map<string, Details>,
                           sentFiles: map<string, FileRecord>,
                           sentNotifications: map<string, NoteRecord>,
                           lastChecked: Option<int>)

  datatype UpdateKind = AssignmentDates | AssignmentFiles | QuizDates

  /** Why a check cycle gave up: login failed on every attempt, or the browser could not be reinitialised. */
  datatype AlertCause = LoginExhausted | BrowserReinitFailed

  /** The messages the monitor sends, by kind; the text templates are not modelled. */
  datatype Msg =
    | AssignmentNotice(url: string, lastDay: bool, listed: seq<Attachment>)
    | QuizNotice(url: string)
    | UpdateNotice(url: string, kind: UpdateKind, openedChanged: bool, deadlineChanged: bool,
                   added: seq<Attachment>, removed: seq<Attachment>)
    | FileDocument(url: string, fileName: string)
    | FileLinkOnly(url: string, fileName: string)
    | FileError(url: string, fileName: string)
    | Reminder(url: string, isQuiz: bool, hours: int, minutes: int)
    | CycleAlert(cause: AlertCause)

  // ---------------------------------------------------------------------------
  // Activity types

  predicate IsAssignKind(kind: string) { kind == "assign" || kind == "mod_assign" }
  predicate IsQuizKind(kind: string) { kind == "quiz" || kind == "mod_quiz" }
  predicate IsDeadlineKind(kind: string) { IsAssignKind(kind) || IsQuizKind(kind) }

  lemma KindsDisjoint(kind: string)
    ensures !(IsAssignKind(kind) && IsQuizKind(kind))
  {}

  // ---------------------------------------------------------------------------
  // Field tests

  /** A field that is present and not the empty string (JavaScript truthiness of a string). */
  predicate Truthy(f: Option<string>) {
    f.Some? && f.value != ""
  }

  /** A field that holds a date text: truthy and not the "unknown" sentinel. */
  predicate Known(f: Option<string>) {
    Truthy(f) && f.value != Unknown
  }

  /** The record stored for a successful assignment fetch. */
  function AssignRecord(opening: string, deadline: string, attachments: seq<Attachment>): Details {
    Details(Some(opening), Some(deadline), None, Some(attachments))
  }

  /** The record stored for a successful quiz fetch. */
  function QuizRecord(opening: string, closing: string): Details {
    Details(Some(opening), None, Some(closing), None)
  }

  /**
    The prefetch of checkCourse fetches an assignment unless a record is stored whose
    opening and deadline texts are both known.
   */
  predicate NeedsAssignFetch(stored: Option<Details>) {
    stored.None? || !Truthy(stored.value.deadline) || stored.value.deadline == Some(Unknown)
    || !Truthy(stored.value.opening) || stored.value.opening == Some(Unknown)
  }

  /** The same for a quiz, with its closing text in place of the deadline. */
  predicate NeedsQuizFetch(stored: Option<Details>) {
    stored.None? || !Truthy(stored.value.opening) || stored.value.opening == Some(Unknown)
    || !Truthy(stored.value.closing) || stored.value.closing == Some(Unknown)
  }

  /** Fetching stops exactly when both dates are known. */
  lemma NeedsFetchIffUnknownDate(stored: Option<Details>)
    ensures !NeedsAssignFetch(stored) <==>
            stored.Some? && Known(stored.value.opening) && Known(stored.value.deadline)
    ensures !NeedsQuizFetch(stored) <==>
            stored.Some? && Known(stored.value.opening) && Known(stored.value.closing)
  {}

  /** A record holding the defaults of a failed fetch is fetched again on the next check. */
  lemma DefaultsAreRefetched(attachments: seq<Attachment>)
    ensures NeedsAssignFetch(Some(AssignRecord(Unknown, Unknown, attachments)))
    ensures NeedsQuizFetch(Some(QuizRecord(Unknown, Unknown)))
  {}

  /** The record checkCourse creates for a course seen for the first time. */
  function DefaultCourse(name: string, url: string): (c: Course)
    ensures c.name == name && c.url == url && c.lastChecked.None?
    ensures c.sections == [] && c.assignments == map[] && c.sentFiles == map[] && c.sentNotifications == map[]
  {
    Course(name, url, [], map[], map[], map[], None)
  }

  /** The `courseData` after checkCourse's setup: an existing record is kept as it is. */
  function EnsureCourse(data: map<string, Course>, courseId: string, name: string, url: string): (r: map<string, Course>)
    ensures courseId in r && r.Keys == data.Keys + {courseId}
    ensures courseId in data ==> r == data
    ensures courseId !in data ==> r[courseId] == DefaultCourse(name, url)
    ensures forall id :: id in data ==> r[id] == data[id]
  {
    if courseId in data then data else data[courseId := DefaultCourse(name, url)]
  }

  /** The setup is idempotent: a second check of the same course reuses the record. */
  lemma EnsureCourseIdempotent(data: map<string, Course>, courseId: string, name: string, url: string, name': string, url': string)
    ensures EnsureCourse(EnsureCourse(data, courseId, name, url), courseId, name', url') ==
            EnsureCourse(data, courseId, name, url)
  {}

  // ---------------------------------------------------------------------------
  // Attachments

  /** The URLs of a list of attachments, in order. */
  function Urls(atts: seq<Attachment>): (us: seq<string>)
    ensures |us| == |atts| && forall k :: 0 <= k < |atts| ==> us[k] == atts[k].url
  {
    if atts == [] then [] else [atts[0].url] + Urls(atts[1..])
  }

  /** The attachments whose URL is not in `urls`, in their order. */
  function Without(atts: seq<Attachment>, urls: seq<string>): (r: seq<Attachment>)
    ensures forall a :: a in r <==> a in atts && a.url !in urls
    ensures |r| <= |atts|
  {
    if atts == [] then []
    else if atts[0].url in urls then Without(atts[1..], urls)
    else [atts[0]] + Without(atts[1..], urls)
  }

  /** Nothing is left out of a list when every URL of it is listed. */
  lemma {:induction false} WithoutAllListed(atts: seq<Attachment>, urls: seq<string>)
    requires forall k :: 0 <= k < |atts| ==> atts[k].url in urls
    ensures Without(atts, urls) == []
  {
    if atts != [] {
      assert atts[0].url in urls;
      WithoutAllListed(atts[1..], urls);
    }
  }

  lemma WithoutOwnUrls(atts: seq<Attachment>)
    ensures Without(atts, Urls(atts)) == []
  {
    WithoutAllListed(atts, Urls(atts));
  }
}
