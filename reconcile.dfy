/**
  What the monitor's handlers do to its stored state, one step at a time: delivering a
  file, announcing a new activity, reporting the changes of a known one, sending a
  deadline reminder, dropping expired records and cleaning the reminder ledgers.
  Each step is a function from the state before to the state after; the message log
  `sent` stands in for the channel. The class in the Monitor module runs the same
  steps in place and is proved to end in the states these functions describe.
 */
module Reconcile {
  import opened Optional
  import opened Dates
  import opened Records
  import opened FileNames
  import opened ChangeDetector
  import Session

  /** The monitor's persistent maps and the channel log. */
  datatype State = State(courseData: map<string, Course>,
                         sentReminders: map<string, ReminderEntry>,
                         sentLastDayReminders: map<string, ReminderEntry>,
                         sent: seq<Msg>)

  // ---------------------------------------------------------------------------
  // cleanExpiredReminders and saveData

  /** A ledger entry whose deadline lies before `now`. */
  predicate EntryExpired(e: ReminderEntry, now: int) {
    e.deadline.Some? && e.deadline.value < now
  }

  /** One ledger after cleanExpiredReminders: the entries whose deadline has passed are gone. */
  function CleanLedger(m: map<string, ReminderEntry>, now: int): map<string, ReminderEntry> {
    map k | k in m && !EntryExpired(m[k], now) :: m[k]
  }

  /** saveData: both ledgers are cleaned before anything is written. */
  function Save(st: State, now: int): (r: State)
    ensures r.courseData == st.courseData && r.sent == st.sent
  {
    st.(sentReminders := CleanLedger(st.sentReminders, now),
        sentLastDayReminders := CleanLedger(st.sentLastDayReminders, now))
  }

  /** An entry without a deadline, or whose deadline is not before `now`, keeps its key and value. */
  lemma CleanLedgerKeeps(m: map<string, ReminderEntry>, now: int, k: string)
    requires k in m
    ensures k in CleanLedger(m, now) <==> m[k].deadline.None? || m[k].deadline.value >= now
    ensures k in CleanLedger(m, now) ==> CleanLedger(m, now)[k] == m[k]
  {}

  /** Cleaning at a later instant subsumes an earlier cleaning; in particular cleaning twice changes nothing. */
  lemma CleanLedgerLater(m: map<string, ReminderEntry>, now1: int, now2: int)
    requires now1 <= now2
    ensures CleanLedger(CleanLedger(m, now1), now2) == CleanLedger(m, now2)
    ensures CleanLedger(CleanLedger(m, now2), now2) == CleanLedger(m, now2)
  {
    assert CleanLedger(CleanLedger(m, now1), now2).Keys == CleanLedger(m, now2).Keys;
    assert CleanLedger(CleanLedger(m, now2), now2).Keys == CleanLedger(m, now2).Keys;
  }

  lemma SaveTwice(st: State, now: int)
    ensures Save(Save(st, now), now) == Save(st, now)
  {
    CleanLedgerLater(st.sentReminders, now, now);
    CleanLedgerLater(st.sentLastDayReminders, now, now);
  }

  // ---------------------------------------------------------------------------
  // downloadAndSendFile

  /** The course record `cid` with a new `sentFiles` entry. */
  function RecordFile(st: State, cid: string, url: string, f: FileRecord): (r: State)
    requires cid in st.courseData
    ensures r.courseData.Keys == st.courseData.Keys
  {
    var c := st.courseData[cid];
    st.(courseData := st.courseData[cid := c.(sentFiles := c.sentFiles[url := f])])
  }

  function Send(st: State, m: Msg): State {
    st.(sent := st.sent + [m])
  }

  /**
    One file: skipped when already sent; an error notice under the original name when
    the course record is missing or the download is unusable; an error notice under
    the cleaned name when the upload fails; otherwise the document (or, above 50 MB,
    its link) is sent, recorded under the cleaned name and saved.
   */
  function Deliver(st: State, cid: string, att: Attachment, dl: Download, now: int): (r: (State, bool))
    ensures r.0.courseData.Keys == st.courseData.Keys && st.sent <= r.0.sent
  {
    if cid !in st.courseData then (Send(st, FileError(att.url, att.fileName)), false)
    else if att.url in st.courseData[cid].sentFiles then (st, false)
    else
      var d := Screen(dl);
      if d == NotDownloaded || d == HtmlPage || d == TooSmall then (Send(st, FileError(att.url, att.fileName)), false)
      else
        var name := NormalizedName(att.fileName);
        if d == UploadFailed then (Send(st, FileError(att.url, name)), false)
        else
          var m := if d == LinkOnly then FileLinkOnly(att.url, name) else FileDocument(att.url, name);
          (Save(RecordFile(Send(st, m), cid, att.url, FileRecord(name, now)), now), true)
  }

  /** The files of one list, delivered in order (`download` says what each URL yields). */
  function DeliverAll(st: State, cid: string, atts: seq<Attachment>, download: string -> Download, now: int): (r: State)
    ensures r.courseData.Keys == st.courseData.Keys && st.sent <= r.sent
    decreases |atts|
  {
    if atts == [] then st
    else
      var last := atts[|atts| - 1];
      Deliver(DeliverAll(st, cid, atts[..|atts| - 1], download, now), cid, last, download(last.url), now).0
  }

  /** A file already recorded as sent is neither downloaded nor announced again. */
  lemma DeliverNeverResends(st: State, cid: string, att: Attachment, dl: Download, now: int)
    requires cid in st.courseData && att.url in st.courseData[cid].sentFiles
    ensures Deliver(st, cid, att, dl, now) == (st, false)
  {}

  /**
    A file not yet sent is reported as sent exactly when it was delivered; then, and
    only then, it is recorded under its cleaned name. Exactly one message goes out.
   */
  lemma DeliverOutcome(st: State, cid: string, att: Attachment, dl: Download, now: int)
    requires cid in st.courseData && att.url !in st.courseData[cid].sentFiles
    ensures var (r, ok) := Deliver(st, cid, att, dl, now);
      (ok <==> Delivered(Screen(dl)))
      && |r.sent| == |st.sent| + 1 && r.sent[..|st.sent|] == st.sent
      && (ok ==> r.courseData == st.courseData[cid := st.courseData[cid].(sentFiles :=
                   st.courseData[cid].sentFiles[att.url := FileRecord(NormalizedName(att.fileName), now)])])
      && (ok ==> r.sent[|st.sent|] in {FileDocument(att.url, NormalizedName(att.fileName)),
                                        FileLinkOnly(att.url, NormalizedName(att.fileName))})
      && (!ok ==> r == Send(st, r.sent[|st.sent|]) && r.sent[|st.sent|].FileError? && r.sent[|st.sent|].url == att.url)
  {}

  /** What a delivery pass may add to the log: messages about files of the list. */
  predicate FileMessage(m: Msg) {
    m.FileDocument? || m.FileLinkOnly? || m.FileError?
  }

  predicate DeliveredMsg(m: Msg) {
    m.FileDocument? || m.FileLinkOnly?
  }

  /**
    What a delivery pass may append: messages about files of the list, where no file
    is delivered twice, none that was recorded before the pass (`before`) is delivered,
    and every delivered file is recorded after it (`after`).
   */
  predicate PassMessages(ext: seq<Msg>, urls: seq<string>, before: set<string>, after: set<string>) {
    (forall m :: m in ext ==> FileMessage(m) && m.url in urls && (DeliveredMsg(m) ==> m.url !in before && m.url in after))
    && (forall i, j :: 0 <= i < j < |ext| && DeliveredMsg(ext[i]) && DeliveredMsg(ext[j]) ==> ext[i].url != ext[j].url)
  }

  /** The promise of a delivery pass from `st` to `r` over `atts`. */
  predicate DeliveryPass(st: State, r: State, cid: string, atts: seq<Attachment>) {
    && cid in st.courseData && cid in r.courseData
    && st.sent <= r.sent
    && st.courseData[cid].sentFiles.Keys <= r.courseData[cid].sentFiles.Keys
    && PassMessages(r.sent[|st.sent|..], Urls(atts), st.courseData[cid].sentFiles.Keys, r.courseData[cid].sentFiles.Keys)
  }

  lemma PassMessagesStep(ext: seq<Msg>, urls: seq<string>, urls': seq<string>, before: set<string>,
                         after: set<string>, after': set<string>, m: Msg)
    requires PassMessages(ext, urls, before, after)
    requires before <= after <= after' && forall u :: u in urls ==> u in urls'
    requires FileMessage(m) && m.url in urls' && (DeliveredMsg(m) ==> m.url !in after && m.url in after')
    ensures PassMessages(ext + [m], urls', before, after')
  {
    var e := ext + [m];
    forall i, j | 0 <= i < j < |e| && DeliveredMsg(e[i]) && DeliveredMsg(e[j]) ensures e[i].url != e[j].url {
      if j == |ext| {
        assert e[i] in ext;
      } else {
        assert e[i] == ext[i] && e[j] == ext[j];
      }
    }
  }

  lemma PassMessagesWiden(ext: seq<Msg>, urls: seq<string>, urls': seq<string>, before: set<string>, after: set<string>)
    requires PassMessages(ext, urls, before, after)
    requires forall u :: u in urls ==> u in urls'
    ensures PassMessages(ext, urls', before, after)
  {}

  lemma UrlsSnoc(atts: seq<Attachment>, att: Attachment)
    ensures Urls(atts + [att]) == Urls(atts) + [att.url]
  {}

  lemma DeliverStep(st: State, mid: State, cid: string, atts: seq<Attachment>, att: Attachment, dl: Download, now: int,
                    atts': seq<Attachment>)
    requires DeliveryPass(st, mid, cid, atts) && atts' == atts + [att]
    ensures DeliveryPass(st, Deliver(mid, cid, att, dl, now).0, cid, atts')
  {
    UrlsSnoc(atts, att);
    var urls := Urls(atts);
    var urls' := Urls(atts + [att]);
    var ext := mid.sent[|st.sent|..];
    var before := st.courseData[cid].sentFiles.Keys;
    var after := mid.courseData[cid].sentFiles.Keys;
    if att.url in mid.courseData[cid].sentFiles {
      DeliverNeverResends(mid, cid, att, dl, now);
      PassMessagesWiden(ext, urls, urls', before, after);
    } else {
      DeliverOutcome(mid, cid, att, dl, now);
      PassExtends(st, mid, Deliver(mid, cid, att, dl, now).0, cid, atts, att);
    }
  }

  /** One more message about `att`, recording it when it is a delivery, extends a pass. */
  lemma PassExtends(st: State, mid: State, r: State, cid: string, atts: seq<Attachment>, att: Attachment)
    requires DeliveryPass(st, mid, cid, atts)
    requires att.url !in mid.courseData[cid].sentFiles && cid in r.courseData
    requires |r.sent| == |mid.sent| + 1 && r.sent[..|mid.sent|] == mid.sent
    requires mid.courseData[cid].sentFiles.Keys <= r.courseData[cid].sentFiles.Keys
    requires FileMessage(r.sent[|mid.sent|]) && r.sent[|mid.sent|].url == att.url
    requires DeliveredMsg(r.sent[|mid.sent|]) ==> att.url in r.courseData[cid].sentFiles
    ensures DeliveryPass(st, r, cid, atts + [att])
  {
    UrlsSnoc(atts, att);
    var m := r.sent[|mid.sent|];
    var ext := mid.sent[|st.sent|..];
    assert r.sent == mid.sent + [m];
    assert r.sent[|st.sent|..] == ext + [m];
    PassMessagesStep(ext, Urls(atts), Urls(atts + [att]), st.courseData[cid].sentFiles.Keys,
                     mid.courseData[cid].sentFiles.Keys, r.courseData[cid].sentFiles.Keys, m);
  }

  /** A delivery pass keeps its promise. */
  lemma {:induction false} DeliverAllPass(st: State, cid: string, atts: seq<Attachment>, download: string -> Download, now: int)
    requires cid in st.courseData
    ensures DeliveryPass(st, DeliverAll(st, cid, atts, download, now), cid, atts)
    decreases |atts|
  {
    if atts == [] {
      assert st.sent[|st.sent|..] == [];
    } else {
      var init := atts[..|atts| - 1];
      var last := atts[|atts| - 1];
      DeliverAllPass(st, cid, init, download, now);
      assert init + [last] == atts;
      DeliverStep(st, DeliverAll(st, cid, init, download, now), cid, init, last, download(last.url), now, atts);
    }
  }

  // ---------------------------------------------------------------------------
  // notifyNewActivities

  /** `assignments[url] = details` in the course record. */
  function StoreDetails(st: State, cid: string, url: string, d: Details): (r: State)
    ensures r.courseData.Keys == st.courseData.Keys && r.sent == st.sent
  {
    if cid !in st.courseData then st
    else
      var c := st.courseData[cid];
      st.(courseData := st.courseData[cid := c.(assignments := c.assignments[url := d])])
  }

  /** The details and the `sentNotifications` entry written after a notice went out. */
  function StoreNotice(st: State, cid: string, url: string, d: Details, note: NoteRecord): (r: State)
    ensures r.courseData.Keys == st.courseData.Keys && r.sent == st.sent
  {
    if cid !in st.courseData then st
    else
      var c := st.courseData[cid];
      st.(courseData := st.courseData[cid := c.(assignments := c.assignments[url := d],
                                                 sentNotifications := c.sentNotifications[url := note])])
  }

  /** The details an assignment notice works from: the fetched ones, or the defaults of a failed fetch. */
  function AssignNoticeDetails(f: AssignFetch): (d: Details)
    ensures d.attachments.Some? && d.closing.None?
    ensures f.AssignFailed? ==> d == AssignRecord(Unknown, Unknown, [])
    ensures f.AssignFetched? ==> d == AssignRecord(f.opening, f.deadline, f.attachments)
  {
    match f
    case AssignFailed => AssignRecord(Unknown, Unknown, [])
    case AssignFetched(o, dl, atts) => AssignRecord(o, dl, atts)
  }

  function QuizNoticeDetails(f: QuizFetch): (d: Details)
    ensures d.deadline.None? && d.attachments.None?
    ensures f.QuizFailed? ==> d == QuizRecord(Unknown, Unknown)
    ensures f.QuizFetched? ==> d == QuizRecord(f.opening, f.closing)
  {
    match f
    case QuizFailed => QuizRecord(Unknown, Unknown)
    case QuizFetched(o, c) => QuizRecord(o, c)
  }

  /** The expiry test of a new activity: its deadline text is known and counts as passed. */
  predicate NoticeExpired(field: Option<string>, now: int) {
    Known(field) && IsExpired(field.value, now)
  }

  /** The last-day test of a new assignment: its deadline is today. */
  predicate NoticeLastDay(field: Option<string>, now: int) {
    Known(field) && DaysLeft(field.value, now) == Some(0)
  }

  /** One new item of notifyNewActivities. */
  function NotifyOne(st: State, cid: string, item: NewItem, ex: Extractor, download: string -> Download, now: int): (r: State)
    ensures r.courseData.Keys == st.courseData.Keys && st.sent <= r.sent
  {
    var url := item.activity.url;
    if cid !in st.courseData || url in st.courseData[cid].sentNotifications then st
    else if IsAssignKind(item.activity.kind) then
      var d := AssignNoticeDetails(ex.assign(url));
      if NoticeExpired(d.deadline, now) then Save(StoreDetails(st, cid, url, d), now)
      else
        var lastDay := NoticeLastDay(d.deadline, now);
        var atts := d.attachments.value;
        var st1 := Send(st, AssignmentNotice(url, lastDay, if lastDay then [] else atts));
        var st2 := if lastDay then st1 else DeliverAll(st1, cid, atts, download, now);
        Save(StoreNotice(st2, cid, url, d, NoteRecord(now, item.activity.name)), now)
    else if IsQuizKind(item.activity.kind) then
      var d := QuizNoticeDetails(ex.quiz(url));
      if NoticeExpired(d.closing, now) then Save(StoreDetails(st, cid, url, d), now)
      else Save(StoreNotice(Send(st, QuizNotice(url)), cid, url, d, NoteRecord(now, item.activity.name)), now)
    else st
  }

  /** notifyNewActivities: the new items in order. */
  function NotifyAll(st: State, cid: string, items: seq<NewItem>, ex: Extractor, download: string -> Download, now: int): (r: State)
    ensures r.courseData.Keys == st.courseData.Keys && st.sent <= r.sent
    decreases |items|
  {
    if items == [] then st
    else NotifyOne(NotifyAll(st, cid, items[..|items| - 1], ex, download, now), cid, items[|items| - 1], ex, download, now)
  }

  /** An activity already announced is skipped without a fetch. */
  lemma NotifySkipsAnnounced(st: State, cid: string, item: NewItem, ex: Extractor, download: string -> Download, now: int)
    requires cid in st.courseData && item.activity.url in st.courseData[cid].sentNotifications
    ensures NotifyOne(st, cid, item, ex, download, now) == st
  {}

  /** A new activity whose deadline has passed is stored, with no message and no ledger entry. */
  lemma NotifyExpiredIsSilent(st: State, cid: string, item: NewItem, ex: Extractor, download: string -> Download, now: int)
    requires cid in st.courseData && item.activity.url !in st.courseData[cid].sentNotifications
    requires IsAssignKind(item.activity.kind) && NoticeExpired(AssignNoticeDetails(ex.assign(item.activity.url)).deadline, now)
    ensures var r := NotifyOne(st, cid, item, ex, download, now);
      r.sent == st.sent
      && r.courseData[cid].sentNotifications == st.courseData[cid].sentNotifications
      && r.courseData[cid].assignments == st.courseData[cid].assignments[item.activity.url := AssignNoticeDetails(ex.assign(item.activity.url))]
  {}

  /** A failed fetch still produces the basic notice, with no files, and stores the defaults. */
  lemma NotifyFailedFetchSendsBasicNotice(st: State, cid: string, item: NewItem, ex: Extractor, download: string -> Download, now: int)
    requires cid in st.courseData && item.activity.url !in st.courseData[cid].sentNotifications
    requires IsAssignKind(item.activity.kind) && ex.assign(item.activity.url).AssignFailed?
    ensures var r := NotifyOne(st, cid, item, ex, download, now);
      r.sent == st.sent + [AssignmentNotice(item.activity.url, false, [])]
      && r.courseData[cid].assignments[item.activity.url] == AssignRecord(Unknown, Unknown, [])
      && item.activity.url in r.courseData[cid].sentNotifications
  {
    UnknownNeverParses(now);
  }

  /** On the last day the notice lists no attachments and none is delivered. */
  lemma NotifyLastDaySendsNoFiles(st: State, cid: string, item: NewItem, ex: Extractor, download: string -> Download, now: int)
    requires cid in st.courseData && item.activity.url !in st.courseData[cid].sentNotifications
    requires IsAssignKind(item.activity.kind)
    requires NoticeLastDay(AssignNoticeDetails(ex.assign(item.activity.url)).deadline, now)
    ensures NotifyOne(st, cid, item, ex, download, now).sent == st.sent + [AssignmentNotice(item.activity.url, true, [])]
  {}

  /**
    When an assignment notice went out, the details and the announcement are both
    recorded, and the log grew by the notice and then by a delivery pass over the
    attachments (none on the last day).
   */
  lemma NotifyAssignmentRecordsBoth(st: State, cid: string, item: NewItem, ex: Extractor, download: string -> Download, now: int)
    requires cid in st.courseData && item.activity.url !in st.courseData[cid].sentNotifications
    requires IsAssignKind(item.activity.kind)
    requires !NoticeExpired(AssignNoticeDetails(ex.assign(item.activity.url)).deadline, now)
    ensures var r := NotifyOne(st, cid, item, ex, download, now);
      var url := item.activity.url;
      var d := AssignNoticeDetails(ex.assign(url));
      var lastDay := NoticeLastDay(d.deadline, now);
      r.courseData[cid].sentNotifications[url] == NoteRecord(now, item.activity.name)
      && r.courseData[cid].assignments[url] == d
      && st.sent + [AssignmentNotice(url, lastDay, if lastDay then [] else d.attachments.value)] <= r.sent
      && DeliveryPass(Send(st, AssignmentNotice(url, lastDay, if lastDay then [] else d.attachments.value)), r, cid,
                      if lastDay then [] else d.attachments.value)
  {
    var url := item.activity.url;
    var d := AssignNoticeDetails(ex.assign(url));
    var lastDay := NoticeLastDay(d.deadline, now);
    var atts := if lastDay then [] else d.attachments.value;
    var st1 := Send(st, AssignmentNotice(url, lastDay, atts));
    DeliverAllPass(st1, cid, atts, download, now);
    var st2 := DeliverAll(st1, cid, atts, download, now);
    var r := NotifyOne(st, cid, item, ex, download, now);
    assert r == Save(StoreNotice(st2, cid, url, d, NoteRecord(now, item.activity.name)), now);
    var c2 := st2.courseData[cid];
    assert r.courseData[cid] == c2.(assignments := c2.assignments[url := d],
                                     sentNotifications := c2.sentNotifications[url := NoteRecord(now, item.activity.name)]);
    assert c2.sentFiles.Keys <= r.courseData[cid].sentFiles.Keys;
  }

  /** When a quiz notice went out, the details and the announcement are both recorded. */
  lemma NotifyQuizRecordsBoth(st: State, cid: string, item: NewItem, ex: Extractor, download: string -> Download, now: int)
    requires cid in st.courseData && item.activity.url !in st.courseData[cid].sentNotifications
    requires IsQuizKind(item.activity.kind)
    requires !NoticeExpired(QuizNoticeDetails(ex.quiz(item.activity.url)).closing, now)
    ensures var r := NotifyOne(st, cid, item, ex, download, now);
      var url := item.activity.url;
      r.courseData[cid].sentNotifications[url] == NoteRecord(now, item.activity.name)
      && r.courseData[cid].assignments[url] == QuizNoticeDetails(ex.quiz(url))
      && r.sent == st.sent + [QuizNotice(url)]
  {
    KindsDisjoint(item.activity.kind);
  }

  /** Announcing an activity twice sends what announcing it once sends. */
  lemma NotifyIdempotent(st: State, cid: string, item: NewItem, ex: Extractor, download: string -> Download, now: int)
    ensures var r := NotifyOne(st, cid, item, ex, download, now);
      NotifyOne(r, cid, item, ex, download, now).sent == r.sent
  {
    var url := item.activity.url;
    var r := NotifyOne(st, cid, item, ex, download, now);
    if cid in st.courseData && url !in st.courseData[cid].sentNotifications && IsDeadlineKind(item.activity.kind) {
      var expired := if IsAssignKind(item.activity.kind) then NoticeExpired(AssignNoticeDetails(ex.assign(url)).deadline, now)
                     else NoticeExpired(QuizNoticeDetails(ex.quiz(url)).closing, now);
      if expired {
        assert r.courseData[cid].sentNotifications == st.courseData[cid].sentNotifications;
      } else if IsAssignKind(item.activity.kind) {
        NotifyAssignmentRecordsBoth(st, cid, item, ex, download, now);
      } else {
        NotifyQuizRecordsBoth(st, cid, item, ex, download, now);
      }
    }
  }

  // ---------------------------------------------------------------------------
  // checkForUpdates

  /** The attachments of a record, `attachments || []`. */
  function AttachmentsOf(d: Details): seq<Attachment> {
    if d.attachments.Some? then d.attachments.value else []
  }

  /** The two lists name the same URLs the same number of times (their sorted URL lists agree). */
  predicate SameUrls(a: seq<Attachment>, b: seq<Attachment>) {
    multiset(Urls(a)) == multiset(Urls(b))
  }

  /**
    Whether a deadline (or closing) text counts as changed: it differs, unless the old
    and the new text both parse to a passed date.
   */
  predicate DeadlineChanged(prev: Option<string>, cur: string, now: int) {
    prev != Some(cur)
    && !(Known(prev) && Known(Some(cur)) && IsExpired(prev.value, now) && IsExpired(cur, now))
  }

  /** The expiry test of checkForUpdates: the new text is not the sentinel and counts as passed. */
  predicate UpdateExpired(cur: string, now: int) {
    cur != Unknown && IsExpired(cur, now)
  }

  /** The attachments the update notice lists as added: new ones whose URL the old list lacks. */
  function AddedFiles(prev: seq<Attachment>, cur: seq<Attachment>): seq<Attachment> {
    Without(cur, Urls(prev))
  }

  /** The attachments listed as removed; none when the new page shows no attachments at all. */
  function RemovedFiles(prev: seq<Attachment>, cur: seq<Attachment>): seq<Attachment> {
    if |cur| == 0 && |prev| > 0 then [] else Without(prev, Urls(cur))
  }

  /** The update notice for an assignment, or None when nothing changed. */
  function AssignUpdate(url: string, prev: Details, cur: AssignFetch, now: int): (m: Option<Msg>)
    requires cur.AssignFetched?
    ensures m.Some? ==> m.value.UpdateNotice? && m.value.url == url
  {
    var openedChanged := prev.opening != Some(cur.opening);
    var deadlineChanged := DeadlineChanged(prev.deadline, cur.deadline, now);
    var dateChanged := openedChanged || deadlineChanged;
    var oldAtts := AttachmentsOf(prev);
    var filesChanged := !SameUrls(oldAtts, cur.attachments);
    if !dateChanged && !filesChanged then None
    else Some(UpdateNotice(url, if dateChanged then AssignmentDates else AssignmentFiles, openedChanged, deadlineChanged,
                           if filesChanged then AddedFiles(oldAtts, cur.attachments) else [],
                           if filesChanged then RemovedFiles(oldAtts, cur.attachments) else []))
  }

  /** The update notice for a quiz, or None when neither date changed. */
  function QuizUpdate(url: string, prev: Details, cur: QuizFetch, now: int): (m: Option<Msg>)
    requires cur.QuizFetched?
    ensures m.Some? ==> m.value.UpdateNotice? && m.value.kind == QuizDates && m.value.added == [] && m.value.removed == []
  {
    var openedChanged := prev.opening != Some(cur.opening);
    var closedChanged := DeadlineChanged(prev.closing, cur.closing, now);
    if openedChanged || closedChanged then Some(UpdateNotice(url, QuizDates, openedChanged, closedChanged, [], [])) else None
  }

  /**
    One updated item of checkForUpdates. A failed fetch changes nothing; a passed
    deadline stores the new details silently; a stored record without an attachment
    list whose files changed makes the comparison throw, and the item is skipped.
   */
  function UpdateOne(st: State, cid: string, item: UpdatedItem, ex: Extractor, download: string -> Download, now: int): (r: State)
    ensures r.courseData.Keys == st.courseData.Keys && st.sent <= r.sent
  {
    var url := item.activity.url;
    var prev := item.oldDetails;
    if cid !in st.courseData then st
    else if IsAssignKind(item.activity.kind) then
      var f := ex.assign(url);
      if f.AssignFailed? then st
      else
        var cur := AssignRecord(f.opening, f.deadline, f.attachments);
        if UpdateExpired(f.deadline, now) then Save(StoreDetails(st, cid, url, cur), now)
        else if !SameUrls(AttachmentsOf(prev), f.attachments) && prev.attachments.None? then st
        else
          var st1 := match AssignUpdate(url, prev, f, now)
                     case None => st
                     case Some(m) => DeliverAll(Send(st, m), cid, AddedFiles(AttachmentsOf(prev), f.attachments), download, now);
          Save(StoreDetails(st1, cid, url, cur), now)
    else if IsQuizKind(item.activity.kind) then
      var f := ex.quiz(url);
      if f.QuizFailed? then st
      else
        var cur := QuizRecord(f.opening, f.closing);
        if UpdateExpired(f.closing, now) then Save(StoreDetails(st, cid, url, cur), now)
        else
          var st1 := match QuizUpdate(url, prev, f, now)
                     case None => st
                     case Some(m) => Send(st, m);
          Save(StoreDetails(st1, cid, url, cur), now)
    else st
  }

  /** checkForUpdates: the updated items in order. */
  function UpdateAll(st: State, cid: string, items: seq<UpdatedItem>, ex: Extractor, download: string -> Download, now: int): (r: State)
    ensures r.courseData.Keys == st.courseData.Keys && st.sent <= r.sent
    decreases |items|
  {
    if items == [] then st
    else UpdateOne(UpdateAll(st, cid, items[..|items| - 1], ex, download, now), cid, items[|items| - 1], ex, download, now)
  }

  /** A failed fetch leaves everything as it was. */
  lemma UpdateFailedFetchChangesNothing(st: State, cid: string, item: UpdatedItem, ex: Extractor, download: string -> Download, now: int)
    requires IsAssignKind(item.activity.kind) ==> ex.assign(item.activity.url).AssignFailed?
    requires IsQuizKind(item.activity.kind) ==> ex.quiz(item.activity.url).QuizFailed?
    ensures UpdateOne(st, cid, item, ex, download, now) == st
  {}

  /** A deadline that has newly passed stores the new details and sends nothing. */
  lemma UpdateExpiredIsSilent(st: State, cid: string, item: UpdatedItem, ex: Extractor, download: string -> Download, now: int)
    requires cid in st.courseData && IsAssignKind(item.activity.kind)
    requires ex.assign(item.activity.url).AssignFetched? && UpdateExpired(ex.assign(item.activity.url).deadline, now)
    ensures var r := UpdateOne(st, cid, item, ex, download, now);
      var f := ex.assign(item.activity.url);
      r.sent == st.sent
      && r.courseData[cid].assignments[item.activity.url] == AssignRecord(f.opening, f.deadline, f.attachments)
  {}

  /**
    The rule that ignores a changed deadline when both the old and the new one have
    passed never applies: a passed new deadline has taken the expiry path first.
   */
  lemma BothPassedRuleUnreachable(prev: Option<string>, cur: string, now: int)
    requires !UpdateExpired(cur, now)
    ensures DeadlineChanged(prev, cur, now) <==> prev != Some(cur)
  {}

  /** Added and removed files are the differences of the two lists by URL. */
  lemma AttachmentDeltas(prev: seq<Attachment>, cur: seq<Attachment>)
    ensures forall a :: a in AddedFiles(prev, cur) <==> a in cur && a.url !in Urls(prev)
    ensures forall a :: a in RemovedFiles(prev, cur) <==> a in prev && a.url !in Urls(cur) && (|cur| > 0 || |prev| == 0)
  {}

  /** Lists that name the same URLs add and remove nothing. */
  lemma SameUrlsNoDelta(prev: seq<Attachment>, cur: seq<Attachment>)
    requires SameUrls(prev, cur)
    ensures AddedFiles(prev, cur) == [] && Without(prev, Urls(cur)) == []
  {
    forall k | 0 <= k < |cur| ensures cur[k].url in Urls(prev) {
      assert Urls(cur)[k] == cur[k].url;
      assert cur[k].url in multiset(Urls(cur));
    }
    WithoutAllListed(cur, Urls(prev));
    forall k | 0 <= k < |prev| ensures prev[k].url in Urls(cur) {
      assert Urls(prev)[k] == prev[k].url;
      assert prev[k].url in multiset(Urls(prev));
    }
    WithoutAllListed(prev, Urls(cur));
  }

  /**
    The log `log` extends `before` by the notice `m`, then only by messages about files
    of `atts` whose URL `prev` lacked, none delivered that was in `sentBefore`.
   */
  predicate NoticeThenFiles(log: seq<Msg>, before: seq<Msg>, m: Msg, prev: seq<Attachment>, atts: seq<Attachment>,
                            sentBefore: set<string>) {
    |log| > |before| && log[..|before| + 1] == before + [m]
    && forall i :: |before| < i < |log| ==>
         FileMessage(log[i])
         && (exists a :: a in atts && a.url == log[i].url && a.url !in Urls(prev))
         && (DeliveredMsg(log[i]) ==> log[i].url !in sentBefore)
  }

  /**
    After the update notice only added files are delivered: every later message is
    about a file of the new list whose URL the old list lacked, and none of them had
    been sent before.
   */
  lemma UpdateDeliversOnlyAdded(st: State, cid: string, item: UpdatedItem, ex: Extractor, download: string -> Download, now: int)
    requires cid in st.courseData && IsAssignKind(item.activity.kind)
    requires var f := ex.assign(item.activity.url);
      f.AssignFetched? && !UpdateExpired(f.deadline, now) && AssignUpdate(item.activity.url, item.oldDetails, f, now).Some?
      && (SameUrls(AttachmentsOf(item.oldDetails), f.attachments) || item.oldDetails.attachments.Some?)
    ensures var f := ex.assign(item.activity.url);
      NoticeThenFiles(UpdateOne(st, cid, item, ex, download, now).sent, st.sent,
                      AssignUpdate(item.activity.url, item.oldDetails, f, now).value,
                      AttachmentsOf(item.oldDetails), f.attachments, st.courseData[cid].sentFiles.Keys)
  {
    var f := ex.assign(item.activity.url);
    NoticeThenAdded(st, AssignUpdate(item.activity.url, item.oldDetails, f, now).value, cid,
                    AttachmentsOf(item.oldDetails), f.attachments, download, now);
    UpdateOneLog(st, cid, item, ex, download, now);
  }

  /** A notice followed by the delivery of the added files of `atts` over `prev`. */
  lemma NoticeThenAdded(st: State, m: Msg, cid: string, prev: seq<Attachment>, atts: seq<Attachment>,
                        download: string -> Download, now: int)
    requires cid in st.courseData
    ensures NoticeThenFiles(DeliverAll(Send(st, m), cid, AddedFiles(prev, atts), download, now).sent, st.sent,
                            m, prev, atts, st.courseData[cid].sentFiles.Keys)
  {
    var added := AddedFiles(prev, atts);
    var st1 := Send(st, m);
    DeliverAllPass(st1, cid, added, download, now);
    var r := DeliverAll(st1, cid, added, download, now);
    assert r.sent[..|st.sent| + 1] == st1.sent;
    forall i | |st.sent| < i < |r.sent|
      ensures FileMessage(r.sent[i]) && exists a :: a in atts && a.url == r.sent[i].url && a.url !in Urls(prev)
    {
      assert r.sent[i] in r.sent[|st1.sent|..];
      var k :| 0 <= k < |Urls(added)| && Urls(added)[k] == r.sent[i].url;
      assert added[k] in added;
    }
  }

  /** The log after such an update: the notice, then what delivering the added files sends. */
  lemma UpdateOneLog(st: State, cid: string, item: UpdatedItem, ex: Extractor, download: string -> Download, now: int)
    requires cid in st.courseData && IsAssignKind(item.activity.kind)
    requires var f := ex.assign(item.activity.url);
      f.AssignFetched? && !UpdateExpired(f.deadline, now) && AssignUpdate(item.activity.url, item.oldDetails, f, now).Some?
      && (SameUrls(AttachmentsOf(item.oldDetails), f.attachments) || item.oldDetails.attachments.Some?)
    ensures var f := ex.assign(item.activity.url);
      UpdateOne(st, cid, item, ex, download, now).sent ==
        DeliverAll(Send(st, AssignUpdate(item.activity.url, item.oldDetails, f, now).value), cid,
                   AddedFiles(AttachmentsOf(item.oldDetails), f.attachments), download, now).sent
  {}

  /** An item whose dates and files are unchanged sends nothing; its details are still stored. */
  lemma UpdateWithoutChangeIsSilent(st: State, cid: string, item: UpdatedItem, ex: Extractor, download: string -> Download, now: int)
    requires cid in st.courseData && IsAssignKind(item.activity.kind)
    requires var f := ex.assign(item.activity.url);
      f.AssignFetched? && item.oldDetails.opening == Some(f.opening) && item.oldDetails.deadline == Some(f.deadline)
      && SameUrls(AttachmentsOf(item.oldDetails), f.attachments)
    ensures UpdateOne(st, cid, item, ex, download, now).sent == st.sent
  {}

  /**
    An assignment update notice goes out exactly when the opening, the deadline or the
    multiset of attachment URLs changed. It is a date notice when a date changed, and
    lists the added and removed files only when the files changed.
   */
  lemma AssignUpdateIff(url: string, prev: Details, cur: AssignFetch, now: int)
    requires cur.AssignFetched?
    ensures var m := AssignUpdate(url, prev, cur, now);
      var openedChanged := prev.opening != Some(cur.opening);
      var deadlineChanged := DeadlineChanged(prev.deadline, cur.deadline, now);
      var filesChanged := !SameUrls(AttachmentsOf(prev), cur.attachments);
      (m.Some? <==> openedChanged || deadlineChanged || filesChanged)
      && (m.Some? ==>
            m.value.kind == (if openedChanged || deadlineChanged then AssignmentDates else AssignmentFiles)
            && m.value.openedChanged == openedChanged && m.value.deadlineChanged == deadlineChanged
            && m.value.added == (if filesChanged then AddedFiles(AttachmentsOf(prev), cur.attachments) else [])
            && m.value.removed == (if filesChanged then RemovedFiles(AttachmentsOf(prev), cur.attachments) else []))
  {}

  /** A quiz update notice goes out exactly when the opening or the closing changed, with those two flags. */
  lemma QuizUpdateIff(url: string, prev: Details, cur: QuizFetch, now: int)
    requires cur.QuizFetched?
    ensures var m := QuizUpdate(url, prev, cur, now);
      var openedChanged := prev.opening != Some(cur.opening);
      var closedChanged := DeadlineChanged(prev.closing, cur.closing, now);
      (m.Some? <==> openedChanged || closedChanged)
      && (m.Some? ==> m.value.url == url && m.value.openedChanged == openedChanged && m.value.deadlineChanged == closedChanged)
  {}

  /**
    A changed assignment whose deadline has not passed is reported: the update notice
    is the next message, and the new details are stored.
   */
  lemma AssignChangeIsReported(st: State, cid: string, item: UpdatedItem, ex: Extractor, download: string -> Download, now: int)
    requires cid in st.courseData && IsAssignKind(item.activity.kind)
    requires var f := ex.assign(item.activity.url);
      f.AssignFetched? && !UpdateExpired(f.deadline, now)
      && (item.oldDetails.opening != Some(f.opening) || DeadlineChanged(item.oldDetails.deadline, f.deadline, now)
          || !SameUrls(AttachmentsOf(item.oldDetails), f.attachments))
      && (SameUrls(AttachmentsOf(item.oldDetails), f.attachments) || item.oldDetails.attachments.Some?)
    ensures var f := ex.assign(item.activity.url);
      var r := UpdateOne(st, cid, item, ex, download, now);
      AssignUpdate(item.activity.url, item.oldDetails, f, now).Some?
      && st.sent + [AssignUpdate(item.activity.url, item.oldDetails, f, now).value] <= r.sent
      && r.courseData[cid].assignments[item.activity.url] == AssignRecord(f.opening, f.deadline, f.attachments)
  {
    var f := ex.assign(item.activity.url);
    AssignUpdateIff(item.activity.url, item.oldDetails, f, now);
    UpdateDeliversOnlyAdded(st, cid, item, ex, download, now);
    var r := UpdateOne(st, cid, item, ex, download, now);
    assert r.sent[..|st.sent| + 1] == st.sent + [AssignUpdate(item.activity.url, item.oldDetails, f, now).value];
  }

  /**
    A quiz whose closing has not passed sends its update notice exactly when a date
    changed, and nothing else; the new details are stored either way.
   */
  lemma QuizChangeIsReported(st: State, cid: string, item: UpdatedItem, ex: Extractor, download: string -> Download, now: int)
    requires cid in st.courseData && IsQuizKind(item.activity.kind)
    requires var f := ex.quiz(item.activity.url); f.QuizFetched? && !UpdateExpired(f.closing, now)
    ensures var f := ex.quiz(item.activity.url);
      var m := QuizUpdate(item.activity.url, item.oldDetails, f, now);
      var r := UpdateOne(st, cid, item, ex, download, now);
      r.sent == st.sent + (if m.Some? then [m.value] else [])
      && (m.Some? <==> item.oldDetails.opening != Some(f.opening) || DeadlineChanged(item.oldDetails.closing, f.closing, now))
      && r.courseData[cid].assignments[item.activity.url] == QuizRecord(f.opening, f.closing)
  {
    KindsDisjoint(item.activity.kind);
  }

  // ---------------------------------------------------------------------------
  // checkAndSendReminders

  /** The reminder window: deadlines at most 24 hours ahead. */
  const ReminderWindow := 24 * MsPerHour

  function ReminderKey(cid: string, url: string): string {
    cid + "_" + url
  }

  function LastDayKey(cid: string, url: string): string {
    ReminderKey(cid, url) + "_lastday"
  }

  /** The freshly fetched deadline text of an assignment, or closing text of a quiz. */
  function FetchedDeadline(isQuiz: bool, url: string, ex: Extractor): Option<string> {
    if isQuiz then
      match ex.quiz(url)
      case QuizFailed => None
      case QuizFetched(_, closing) => Some(closing)
    else
      match ex.assign(url)
      case AssignFailed => None
      case AssignFetched(_, deadline, _) => Some(deadline)
  }

  /** The instant a reminder would be about: a known text that the reminder pattern reads. */
  function ReminderDue(isQuiz: bool, url: string, ex: Extractor): Option<int> {
    var field := FetchedDeadline(isQuiz, url, ex);
    if Known(field) then ReminderDeadline(field.value) else None
  }

  /** The reminder for a deadline `diff` milliseconds ahead: whole hours, then whole minutes left over. */
  function ReminderMsg(url: string, isQuiz: bool, diff: int): Msg {
    Reminder(url, isQuiz, diff / MsPerHour, (diff % MsPerHour) / MsPerMinute)
  }

  /** Whether the visit of activity `a` of course `cid` sends a reminder. */
  predicate RemindFires(st: State, cid: string, a: Activity, ex: Extractor, now: int) {
    IsDeadlineKind(a.kind)
    && ReminderKey(cid, a.url) !in st.sentReminders
    && var due := ReminderDue(IsQuizKind(a.kind), a.url, ex);
       due.Some? && 0 < due.value - now <= ReminderWindow
       && LastDayKey(cid, a.url) !in st.sentLastDayReminders
  }

  /** Sending the reminder for `a`, due at `d`: the message, both ledger entries, then a save. */
  function ReminderSent(st: State, cid: string, courseName: string, a: Activity, d: int, now: int): (r: State)
    ensures r.courseData == st.courseData
  {
    var e := ReminderEntry(now, Some(d), courseName, a.name);
    Save(Send(st, ReminderMsg(a.url, IsQuizKind(a.kind), d - now)).(
           sentLastDayReminders := st.sentLastDayReminders[LastDayKey(cid, a.url) := e],
           sentReminders := st.sentReminders[ReminderKey(cid, a.url) := e]), now)
  }

  /** One activity of checkAndSendReminders. */
  function RemindOne(st: State, cid: string, courseName: string, a: Activity, ex: Extractor, now: int): (r: State)
    ensures r.courseData == st.courseData
  {
    if !RemindFires(st, cid, a, ex, now) then st
    else ReminderSent(st, cid, courseName, a, ReminderDue(IsQuizKind(a.kind), a.url, ex).value, now)
  }

  /** The activities of one section, in order. */
  function RemindActivities(st: State, cid: string, courseName: string, acts: seq<Activity>, ex: Extractor, now: int): (r: State)
    ensures r.courseData == st.courseData
    decreases |acts|
  {
    if acts == [] then st
    else RemindOne(RemindActivities(st, cid, courseName, acts[..|acts| - 1], ex, now), cid, courseName, acts[|acts| - 1], ex, now)
  }

  /** The sections of one course, in order. */
  function RemindSections(st: State, cid: string, courseName: string, secs: seq<Section>, ex: Extractor, now: int): (r: State)
    ensures r.courseData == st.courseData
    decreases |secs|
  {
    if secs == [] then st
    else RemindActivities(RemindSections(st, cid, courseName, secs[..|secs| - 1], ex, now), cid, courseName,
                          secs[|secs| - 1].activities, ex, now)
  }

  /** checkAndSendReminders: the stored courses in the order `order` lists their ids. */
  function RemindCourses(st: State, order: seq<string>, ex: Extractor, now: int): (r: State)
    ensures r.courseData == st.courseData
    decreases |order|
  {
    if order == [] then st
    else
      var mid := RemindCourses(st, order[..|order| - 1], ex, now);
      var cid := order[|order| - 1];
      if cid in mid.courseData then RemindSections(mid, cid, mid.courseData[cid].name, mid.courseData[cid].sections, ex, now)
      else mid
  }

  /**
    A reminder goes out exactly when neither ledger holds the activity and the
    deadline is less than a day ahead; it says how long is left in whole hours and
    minutes, and both ledgers then record the deadline.
   */
  lemma RemindOneOutcome(st: State, cid: string, courseName: string, a: Activity, ex: Extractor, now: int)
    ensures var r := RemindOne(st, cid, courseName, a, ex, now);
      (r.sent != st.sent <==> RemindFires(st, cid, a, ex, now))
      && (!RemindFires(st, cid, a, ex, now) ==> r == st)
      && (RemindFires(st, cid, a, ex, now) ==>
            var d := ReminderDue(IsQuizKind(a.kind), a.url, ex).value;
            var m := r.sent[|st.sent|];
            r.sent == st.sent + [m] && m.Reminder? && m.url == a.url && m.isQuiz == IsQuizKind(a.kind)
            && 0 <= m.minutes < 60 && m.hours <= 24
            && m.hours * MsPerHour + m.minutes * MsPerMinute <= d - now < m.hours * MsPerHour + (m.minutes + 1) * MsPerMinute
            && r.sentReminders[ReminderKey(cid, a.url)] == ReminderEntry(now, Some(d), courseName, a.name)
            && r.sentLastDayReminders[LastDayKey(cid, a.url)] == ReminderEntry(now, Some(d), courseName, a.name))
  {
    if RemindFires(st, cid, a, ex, now) {
      var d := ReminderDue(IsQuizKind(a.kind), a.url, ex).value;
      var diff := d - now;
      assert diff == (diff / MsPerHour) * MsPerHour + diff % MsPerHour;
      var rest := diff % MsPerHour;
      assert rest == (rest / MsPerMinute) * MsPerMinute + rest % MsPerMinute;
    }
  }

  /** A second visit of the same activity sends nothing more: the reminder is sent at most once. */
  lemma RemindOnce(st: State, cid: string, courseName: string, a: Activity, ex: Extractor, now: int)
    ensures var r := RemindOne(st, cid, courseName, a, ex, now);
      RemindOne(r, cid, courseName, a, ex, now) == r
  {
    RemindOneOutcome(st, cid, courseName, a, ex, now);
  }

  /**
    Across cycles: once the reminder for `a` has gone out at `now1`, a save at any
    later instant `t` keeps or drops its ledger entry, and either way no visit at an
    instant `now2` from `t` on sends it again.
   */
  lemma RemindOnceLater(st: State, cid: string, courseName: string, a: Activity, ex: Extractor,
                        now1: int, t: int, now2: int)
    requires now1 <= t <= now2
    requires RemindFires(st, cid, a, ex, now1)
    ensures !RemindFires(Save(RemindOne(st, cid, courseName, a, ex, now1), t), cid, a, ex, now2)
  {
    RemindOneOutcome(st, cid, courseName, a, ex, now1);
    CleanLedgerKeeps(RemindOne(st, cid, courseName, a, ex, now1).sentReminders, t, ReminderKey(cid, a.url));
  }

  /**
    The reminders a pass over one course leaves in the log were each sent for a
    distinct activity URL whose key the main ledger holds, with a deadline still ahead.
   */
  predicate RemindersLogged(ext: seq<Msg>, cid: string, ledger: map<string, ReminderEntry>, now: int) {
    (forall m :: m in ext ==> m.Reminder? && ReminderKey(cid, m.url) in ledger
                              && !EntryExpired(ledger[ReminderKey(cid, m.url)], now))
    && (forall i, j :: 0 <= i < j < |ext| ==> ext[i].url != ext[j].url)
  }

  lemma RemindStep(st: State, mid: State, cid: string, courseName: string, a: Activity, ex: Extractor, now: int)
    requires st.sent <= mid.sent && RemindersLogged(mid.sent[|st.sent|..], cid, mid.sentReminders, now)
    ensures var r := RemindOne(mid, cid, courseName, a, ex, now);
      st.sent <= r.sent && RemindersLogged(r.sent[|st.sent|..], cid, r.sentReminders, now)
  {
    var r := RemindOne(mid, cid, courseName, a, ex, now);
    RemindOneOutcome(mid, cid, courseName, a, ex, now);
    if RemindFires(mid, cid, a, ex, now) {
      var ext := mid.sent[|st.sent|..];
      var m := r.sent[|mid.sent|];
      assert r.sent[|st.sent|..] == ext + [m];
      var d := ReminderDue(IsQuizKind(a.kind), a.url, ex).value;
      var key := ReminderKey(cid, a.url);
      assert r.sentReminders == CleanLedger(mid.sentReminders[key := ReminderEntry(now, Some(d), courseName, a.name)], now);
      LoggedStep(ext, m, cid, mid.sentReminders, r.sentReminders, ReminderEntry(now, Some(d), courseName, a.name), now);
    }
  }

  /** Logging one more reminder, for an activity the ledger did not hold, keeps the promise. */
  lemma LoggedStep(ext: seq<Msg>, m: Msg, cid: string, ledger: map<string, ReminderEntry>,
                   ledger': map<string, ReminderEntry>, e: ReminderEntry, now: int)
    requires RemindersLogged(ext, cid, ledger, now)
    requires m.Reminder? && ReminderKey(cid, m.url) !in ledger && !EntryExpired(e, now)
    requires ledger' == CleanLedger(ledger[ReminderKey(cid, m.url) := e], now)
    ensures RemindersLogged(ext + [m], cid, ledger', now)
  {
    var key := ReminderKey(cid, m.url);
    var x := ext + [m];
    forall y | y in x ensures y.Reminder? && ReminderKey(cid, y.url) in ledger'
                              && !EntryExpired(ledger'[ReminderKey(cid, y.url)], now) {
      if y in ext {
        assert ReminderKey(cid, y.url) in ledger;
        CleanLedgerKeeps(ledger[key := e], now, ReminderKey(cid, y.url));
      } else {
        CleanLedgerKeeps(ledger[key := e], now, key);
      }
    }
    forall i, j | 0 <= i < j < |x| ensures x[i].url != x[j].url {
      if j == |ext| {
        assert x[i] in ext;
      } else {
        assert x[i] == ext[i] && x[j] == ext[j];
      }
    }
  }

  /** Within one section's pass every activity URL gets at most one reminder, and each is on record. */
  lemma {:induction false} RemindActivitiesOnce(st: State, cid: string, courseName: string, acts: seq<Activity>, ex: Extractor, now: int)
    ensures var r := RemindActivities(st, cid, courseName, acts, ex, now);
      st.sent <= r.sent && RemindersLogged(r.sent[|st.sent|..], cid, r.sentReminders, now)
    decreases |acts|
  {
    if acts == [] {
      assert st.sent[|st.sent|..] == [];
    } else {
      RemindActivitiesOnce(st, cid, courseName, acts[..|acts| - 1], ex, now);
      RemindStep(st, RemindActivities(st, cid, courseName, acts[..|acts| - 1], ex, now), cid, courseName, acts[|acts| - 1], ex, now);
    }
  }

  lemma {:induction false} RemindActivitiesFrom(st: State, mid: State, cid: string, courseName: string, acts: seq<Activity>, ex: Extractor, now: int)
    requires st.sent <= mid.sent && RemindersLogged(mid.sent[|st.sent|..], cid, mid.sentReminders, now)
    ensures var r := RemindActivities(mid, cid, courseName, acts, ex, now);
      st.sent <= r.sent && RemindersLogged(r.sent[|st.sent|..], cid, r.sentReminders, now)
    decreases |acts|
  {
    if acts != [] {
      RemindActivitiesFrom(st, mid, cid, courseName, acts[..|acts| - 1], ex, now);
      RemindStep(st, RemindActivities(mid, cid, courseName, acts[..|acts| - 1], ex, now), cid, courseName, acts[|acts| - 1], ex, now);
    }
  }

  /** Within one course's pass every activity URL gets at most one reminder, even when it is listed twice. */
  lemma {:induction false} RemindSectionsOnce(st: State, cid: string, courseName: string, secs: seq<Section>, ex: Extractor, now: int)
    ensures var r := RemindSections(st, cid, courseName, secs, ex, now);
      st.sent <= r.sent && RemindersLogged(r.sent[|st.sent|..], cid, r.sentReminders, now)
    decreases |secs|
  {
    if secs == [] {
      assert st.sent[|st.sent|..] == [];
    } else {
      RemindSectionsOnce(st, cid, courseName, secs[..|secs| - 1], ex, now);
      RemindActivitiesFrom(st, RemindSections(st, cid, courseName, secs[..|secs| - 1], ex, now), cid, courseName,
                           secs[|secs| - 1].activities, ex, now);
    }
  }

  // ---------------------------------------------------------------------------
  // pruneExpired

  /** The field pruneExpired reads: the deadline when present and non-empty, else the closing text. */
  function PruneField(d: Details): Option<string> {
    if Truthy(d.deadline) then d.deadline else if Truthy(d.closing) then d.closing else None
  }

  predicate RecordExpired(d: Details, now: int) {
    var f := PruneField(d);
    f.Some? && IsExpired(f.value, now)
  }

  /** A URL attached to some stored record. */
  predicate IsAttachmentUrl(assignments: map<string, Details>, f: string) {
    exists u :: u in assignments && f in Urls(AttachmentsOf(assignments[u]))
  }

  /** The stored records whose deadline has passed. */
  function ExpiredUrls(assignments: map<string, Details>, now: int): set<string> {
    set u | u in assignments && RecordExpired(assignments[u], now)
  }

  function FilterRecords(assignments: map<string, Details>, gone: set<string>): map<string, Details> {
    map u | u in assignments && u !in gone :: assignments[u]
  }

  /**
    pruneExpired on one course record: the expired records go, with their
    announcement entries, and then every sent-file entry that no remaining record
    lists as an attachment.
   */
  function PruneCourse(c: Course, now: int): (r: Course)
    ensures r.name == c.name && r.url == c.url && r.sections == c.sections && r.lastChecked == c.lastChecked
  {
    var gone := ExpiredUrls(c.assignments, now);
    var kept := FilterRecords(c.assignments, gone);
    c.(assignments := kept,
       sentNotifications := map u | u in c.sentNotifications && u !in gone :: c.sentNotifications[u],
       sentFiles := map f | f in c.sentFiles && IsAttachmentUrl(kept, f) :: c.sentFiles[f])
  }

  function Prune(st: State, cid: string, now: int): (r: State)
    ensures r.courseData.Keys == st.courseData.Keys && r.sent == st.sent
  {
    if cid in st.courseData then st.(courseData := st.courseData[cid := PruneCourse(st.courseData[cid], now)]) else st
  }

  /**
    Afterwards no expired record remains and none of their announcements; every other
    record and announcement is kept unchanged; every remaining sent file is an
    attachment of a remaining record.
   */
  lemma PruneCourseCorrect(c: Course, now: int)
    ensures var r := PruneCourse(c, now);
      (forall u :: u in r.assignments ==> !RecordExpired(r.assignments[u], now))
      && (forall u :: u in c.assignments && !RecordExpired(c.assignments[u], now) ==>
            u in r.assignments && r.assignments[u] == c.assignments[u])
      && r.assignments.Keys <= c.assignments.Keys
      && (forall u :: u in c.assignments && RecordExpired(c.assignments[u], now) ==> u !in r.sentNotifications)
      && (forall u :: u in c.sentNotifications && !(u in c.assignments && RecordExpired(c.assignments[u], now)) ==>
            u in r.sentNotifications && r.sentNotifications[u] == c.sentNotifications[u])
      && (forall f :: f in r.sentFiles ==> IsAttachmentUrl(r.assignments, f) && r.sentFiles[f] == c.sentFiles[f])
      && (forall f :: f in c.sentFiles && IsAttachmentUrl(r.assignments, f) ==> f in r.sentFiles)
  {}

  /** A record with no deadline or closing text, or one that does not parse, is never pruned. */
  lemma PruneKeepsUndated(c: Course, now: int, u: string)
    requires u in c.assignments
    requires var f := PruneField(c.assignments[u]); f.None? || DeadlineMidnight(f.value).None?
    ensures u in PruneCourse(c, now).assignments
  {}

  /** Once the expired records are filtered out, none of those left is expired. */
  lemma PrunedNothingExpired(assignments: map<string, Details>, now: int)
    ensures ExpiredUrls(FilterRecords(assignments, ExpiredUrls(assignments, now)), now) == {}
  {
    var kept := FilterRecords(assignments, ExpiredUrls(assignments, now));
    forall u | u in kept ensures !RecordExpired(kept[u], now) {
      assert u in assignments && u !in ExpiredUrls(assignments, now);
    }
  }

  /** Pruning twice at the same instant prunes no more than once. */
  lemma PruneIdempotent(c: Course, now: int)
    ensures PruneCourse(PruneCourse(c, now), now) == PruneCourse(c, now)
  {
    var r := PruneCourse(c, now);
    var kept := r.assignments;
    PrunedNothingExpired(c.assignments, now);
    assert FilterRecords(kept, {}) == kept;
    assert (map u | u in r.sentNotifications && u !in {} :: r.sentNotifications[u]) == r.sentNotifications;
    assert (map f | f in r.sentFiles && IsAttachmentUrl(kept, f) :: r.sentFiles[f]) == r.sentFiles;
  }

  // ---------------------------------------------------------------------------
  // The prefetch of checkCourse

  /** The stored record of a URL, if any. */
  function Stored(st: State, cid: string, url: string): Option<Details> {
    if cid in st.courseData && url in st.courseData[cid].assignments then Some(st.courseData[cid].assignments[url]) else None
  }

  /** One activity of the prefetch: fetch and store the details while a date is still unknown. */
  function PrefetchOne(st: State, cid: string, a: Activity, ex: Extractor, now: int): (r: State)
    ensures r.courseData.Keys == st.courseData.Keys && r.sent == st.sent
  {
    if a.url == "" || cid !in st.courseData then st
    else if IsAssignKind(a.kind) && NeedsAssignFetch(Stored(st, cid, a.url)) then
      match ex.assign(a.url)
      case AssignFailed => st
      case AssignFetched(o, d, atts) => Save(StoreDetails(st, cid, a.url, AssignRecord(o, d, atts)), now)
    else if IsQuizKind(a.kind) && NeedsQuizFetch(Stored(st, cid, a.url)) then
      match ex.quiz(a.url)
      case QuizFailed => st
      case QuizFetched(o, c) => Save(StoreDetails(st, cid, a.url, QuizRecord(o, c)), now)
    else st
  }

  function PrefetchActivities(st: State, cid: string, acts: seq<Activity>, ex: Extractor, now: int): (r: State)
    ensures r.courseData.Keys == st.courseData.Keys && r.sent == st.sent
    decreases |acts|
  {
    if acts == [] then st
    else PrefetchOne(PrefetchActivities(st, cid, acts[..|acts| - 1], ex, now), cid, acts[|acts| - 1], ex, now)
  }

  function PrefetchSections(st: State, cid: string, secs: seq<Section>, ex: Extractor, now: int): (r: State)
    ensures r.courseData.Keys == st.courseData.Keys && r.sent == st.sent
    decreases |secs|
  {
    if secs == [] then st
    else PrefetchActivities(PrefetchSections(st, cid, secs[..|secs| - 1], ex, now), cid, secs[|secs| - 1].activities, ex, now)
  }

  /** An activity whose dates are both known is not fetched again. */
  lemma PrefetchSkipsKnown(st: State, cid: string, a: Activity, ex: Extractor, now: int)
    requires cid in st.courseData && a.url in st.courseData[cid].assignments
    requires var d := st.courseData[cid].assignments[a.url];
      Known(d.opening) && (IsAssignKind(a.kind) ==> Known(d.deadline)) && (IsQuizKind(a.kind) ==> Known(d.closing))
    ensures PrefetchOne(st, cid, a, ex, now) == st
  {
    NeedsFetchIffUnknownDate(Stored(st, cid, a.url));
  }

  /** A successful fetch is stored; a failed one leaves the record as it was. */
  lemma PrefetchStores(st: State, cid: string, a: Activity, ex: Extractor, now: int)
    requires cid in st.courseData && a.url != "" && IsAssignKind(a.kind) && NeedsAssignFetch(Stored(st, cid, a.url))
    ensures var r := PrefetchOne(st, cid, a, ex, now);
      match ex.assign(a.url)
      case AssignFailed => r == st
      case AssignFetched(o, d, atts) => r.courseData[cid].assignments == st.courseData[cid].assignments[a.url := AssignRecord(o, d, atts)]
  {}

  /** Only the record being fetched changes; the sent-file and announcement ledgers never do. */
  lemma PrefetchFrame(st: State, cid: string, a: Activity, ex: Extractor, now: int)
    requires cid in st.courseData
    ensures var r := PrefetchOne(st, cid, a, ex, now);
      (forall id :: id in st.courseData && id != cid ==> r.courseData[id] == st.courseData[id])
      && r.courseData[cid].sentFiles == st.courseData[cid].sentFiles
      && r.courseData[cid].sentNotifications == st.courseData[cid].sentNotifications
      && r.courseData[cid].sections == st.courseData[cid].sections
      && (forall u :: u in st.courseData[cid].assignments && u != a.url ==>
            u in r.courseData[cid].assignments && r.courseData[cid].assignments[u] == st.courseData[cid].assignments[u])
  {
    if a.url != "" {
      if IsAssignKind(a.kind) && NeedsAssignFetch(Stored(st, cid, a.url)) {
        if ex.assign(a.url).AssignFetched? {
          var f := ex.assign(a.url);
          StoreFrame(st, cid, a.url, AssignRecord(f.opening, f.deadline, f.attachments), now);
        }
      } else if IsQuizKind(a.kind) && NeedsQuizFetch(Stored(st, cid, a.url)) {
        if ex.quiz(a.url).QuizFetched? {
          var f := ex.quiz(a.url);
          StoreFrame(st, cid, a.url, QuizRecord(f.opening, f.closing), now);
        }
      }
    }
  }

  /** Storing one record and saving touches that record only. */
  lemma StoreFrame(st: State, cid: string, url: string, d: Details, now: int)
    requires cid in st.courseData
    ensures var r := Save(StoreDetails(st, cid, url, d), now);
      (forall id :: id in st.courseData && id != cid ==> r.courseData[id] == st.courseData[id])
      && r.courseData[cid] == st.courseData[cid].(assignments := st.courseData[cid].assignments[url := d])
  {}

  // ---------------------------------------------------------------------------
  // checkCourse

  /**
    What the course page shows during one checkCourse: the first reading, how the
    login after a login page ends, and the second reading after it.
   */
  datatype Visit = Visit(first: Session.PageProbe, firstScan: Option<seq<Section>>,
                         attempt: nat -> Session.Attempt, reinit: nat -> Session.Reinit,
                         second: Session.PageProbe, secondScan: Option<seq<Section>>)

  /** How the login of a visit ends. */
  function VisitLogin(v: Visit): Session.LoginOutcome {
    Session.LoginFrom(v.attempt, v.reinit, 0)
  }

  /**
    The snapshot checkCourse works with, as written: extractSections swallows its own
    LOGIN_REQUIRED error, so the first reading is always used, a login page included.
   */
  function VisitSnapshot(v: Visit): (r: seq<Section>)
    ensures v.firstScan.Some? ==> r == v.firstScan.value
    ensures v.firstScan.None? ==> r == []
  {
    match Session.ExtractSectionsAsWritten(v.first, v.firstScan)
    case Snapshot(secs) => secs
  }

  /**
    The snapshot of the intended checkCourse, or None when it gives up: a login page
    makes it log in once and read the page again.
   */
  function IntendedSnapshot(v: Visit): (r: Option<seq<Section>>)
    ensures r.None? <==> (Session.LooksLikeLoginPage(v.first) && (!VisitLogin(v).LoggedIn? || Session.LooksLikeLoginPage(v.second)))
    ensures !Session.LooksLikeLoginPage(v.first) ==> r == Some(VisitSnapshot(v))
  {
    match Session.ExtractSections(v.first, v.firstScan)
    case Snapshot(secs) => Some(secs)
    case LoginRequired =>
      if !VisitLogin(v).LoggedIn? then None
      else
        match Session.ExtractSections(v.second, v.secondScan)
        case Snapshot(secs) => Some(secs)
        case LoginRequired => None
  }

  /** The closing steps of checkCourse: store the snapshot and the check time, prune, save. */
  function FinishCourse(st: State, cid: string, sections: seq<Section>, now: int): (r: State)
    ensures r.courseData.Keys == st.courseData.Keys && r.sent == st.sent
  {
    if cid !in st.courseData then Save(st, now)
    else
      var c := st.courseData[cid];
      Save(Prune(st.(courseData := st.courseData[cid := c.(sections := sections, lastChecked := Some(now))]), cid, now), now)
  }

  /**
    checkCourse on the record `cid`, as written: set up the record, read the page,
    complete the stored dates, then report updated and new activities and store the
    snapshot. The relogin branch is never reached (see VisitSnapshot).
   */
  function CheckCourse(st: State, cid: string, name: string, url: string, v: Visit, ex: Extractor,
                       download: string -> Download, now: int): (r: (State, Changes))
    ensures cid in r.0.courseData && r.0.courseData.Keys == st.courseData.Keys + {cid}
    ensures st.sent <= r.0.sent
  {
    ScanCourse(st.(courseData := EnsureCourse(st.courseData, cid, name, url)), cid, VisitSnapshot(v), ex, download, now)
  }

  /**
    checkCourse as its LOGIN_REQUIRED handler intends: on a login page it logs in once
    and reads the page again, and gives up without storing anything when that fails.
   */
  function CheckCourseIntended(st: State, cid: string, name: string, url: string, v: Visit, ex: Extractor,
                               download: string -> Download, now: int): (r: (State, Changes))
    ensures cid in r.0.courseData && r.0.courseData.Keys == st.courseData.Keys + {cid}
    ensures st.sent <= r.0.sent
  {
    var st0 := st.(courseData := EnsureCourse(st.courseData, cid, name, url));
    match IntendedSnapshot(v)
    case None => (st0, NoChanges)
    case Some(sections) => ScanCourse(st0, cid, sections, ex, download, now)
  }

  /** The part of checkCourse after a snapshot was read. */
  function ScanCourse(st: State, cid: string, sections: seq<Section>, ex: Extractor,
                      download: string -> Download, now: int): (r: (State, Changes))
    requires cid in st.courseData
    ensures r.0.courseData.Keys == st.courseData.Keys && st.sent <= r.0.sent
  {
    var st1 := PrefetchSections(st, cid, sections, ex, now);
    var c := st1.courseData[cid];
    var changes := DetectChanges(c.sections, c.assignments, sections);
    var st2 := if |changes.updatedItems| > 0 then UpdateAll(st1, cid, changes.updatedItems, ex, download, now) else st1;
    var st3 := if changes.hasChanges then NotifyAll(st2, cid, changes.newItems, ex, download, now) else st2;
    (FinishCourse(st3, cid, sections, now), changes)
  }

  /** The intended check gives up on a page that stays a login page: it reports nothing and only sets up the record. */
  lemma CheckCourseIntendedGivesUp(st: State, cid: string, name: string, url: string, v: Visit, ex: Extractor,
                                   download: string -> Download, now: int)
    requires Session.LooksLikeLoginPage(v.first) && (!VisitLogin(v).LoggedIn? || Session.LooksLikeLoginPage(v.second))
    ensures CheckCourseIntended(st, cid, name, url, v, ex, download, now) ==
            (st.(courseData := EnsureCourse(st.courseData, cid, name, url)), NoChanges)
  {}

  /** Off a login page the check as written and the intended one agree. */
  lemma CheckCoursesAgreeOffLoginPage(st: State, cid: string, name: string, url: string, v: Visit, ex: Extractor,
                                      download: string -> Download, now: int)
    requires !Session.LooksLikeLoginPage(v.first)
    ensures CheckCourseIntended(st, cid, name, url, v, ex, download, now) == CheckCourse(st, cid, name, url, v, ex, download, now)
  {}

  /** After a check the record holds the snapshot read and the check time, and no expired record. */
  lemma CheckCourseStoresSnapshot(st: State, cid: string, name: string, url: string, v: Visit, ex: Extractor,
                                  download: string -> Download, now: int)
    ensures var c := CheckCourse(st, cid, name, url, v, ex, download, now).0.courseData[cid];
      c.sections == VisitSnapshot(v) && c.lastChecked == Some(now)
      && forall u :: u in c.assignments ==> !RecordExpired(c.assignments[u], now)
  {
    var st0 := st.(courseData := EnsureCourse(st.courseData, cid, name, url));
    ScanCourseStores(st0, cid, VisitSnapshot(v), ex, download, now);
  }

  /** The scan of a snapshot stores it with the check time, and prunes every expired record. */
  lemma ScanCourseStores(st: State, cid: string, sections: seq<Section>, ex: Extractor,
                         download: string -> Download, now: int)
    requires cid in st.courseData
    ensures var c := ScanCourse(st, cid, sections, ex, download, now).0.courseData[cid];
      c.sections == sections && c.lastChecked == Some(now)
      && forall u :: u in c.assignments ==> !RecordExpired(c.assignments[u], now)
  {
    var r := ScanCourse(st, cid, sections, ex, download, now).0;
    var st1 := PrefetchSections(st, cid, sections, ex, now);
    var c := st1.courseData[cid];
    var changes := DetectChanges(c.sections, c.assignments, sections);
    var st2 := if |changes.updatedItems| > 0 then UpdateAll(st1, cid, changes.updatedItems, ex, download, now) else st1;
    var st3 := if changes.hasChanges then NotifyAll(st2, cid, changes.newItems, ex, download, now) else st2;
    assert r == FinishCourse(st3, cid, sections, now);
    var c3 := st3.courseData[cid];
    PruneCourseCorrect(c3.(sections := sections, lastChecked := Some(now)), now);
  }

  /**
    As written, a course page that redirected to the login page is stored as a course
    without sections, checked now, and reported as unchanged; its stored sections are lost.
   */
  lemma LoginPageEmptiesCourse(st: State, cid: string, name: string, url: string, v: Visit, ex: Extractor,
                               download: string -> Download, now: int)
    requires v.first == Session.PageProbe("https://oauth.um.ac.ir/", true, true) && v.firstScan == Some([])
    ensures var r := CheckCourse(st, cid, name, url, v, ex, download, now);
      r.0.courseData[cid].sections == [] && r.0.courseData[cid].lastChecked == Some(now)
      && r.1.newItems == [] && r.1.updatedItems == [] && !r.1.hasChanges
  {
    CheckCourseStoresSnapshot(st, cid, name, url, v, ex, download, now);
    var st0 := st.(courseData := EnsureCourse(st.courseData, cid, name, url));
    var st1 := PrefetchSections(st0, cid, [], ex, now);
    var c := st1.courseData[cid];
    assert DetectChanges(c.sections, c.assignments, []) == NoChanges;
  }

  // ---------------------------------------------------------------------------
  // checkAllCourses

  /** One configured course URL with its id, the name its page shows and what the visit finds. */
  datatype CourseVisit = CourseVisit(cid: string, name: string, url: string, visit: Visit)

  function CheckCourses(st: State, cs: seq<CourseVisit>, ex: Extractor, download: string -> Download, now: int): (r: State)
    ensures st.sent <= r.sent
    ensures st.courseData.Keys <= r.courseData.Keys
    decreases |cs|
  {
    if cs == [] then st
    else
      var last := cs[|cs| - 1];
      var mid := CheckCourses(st, cs[..|cs| - 1], ex, download, now);
      CheckCourse(mid, last.cid, last.name, last.url, last.visit, ex, download, now).0
  }

  /** The admin-chat alert of checkAllCourses' outer catch for a login that did not succeed. */
  function LoginAlert(o: Session.LoginOutcome): (m: Msg)
    ensures m.CycleAlert? && (m.cause == BrowserReinitFailed <==> o.BrowserLost?)
  {
    CycleAlert(if o.BrowserLost? then BrowserReinitFailed else LoginExhausted)
  }

  /**
    checkAllCourses: nothing during the quiet hours; only the admin alert when the
    stored session is no longer valid and logging in fails; otherwise every course in turn and then
    the reminders, over the stored courses in the order `order` lists them.
   */
  function CheckAll(st: State, hour: int, minute: int, probe: Session.Probe,
                    attempt: nat -> Session.Attempt, reinit: nat -> Session.Reinit,
                    cs: seq<CourseVisit>, order: seq<string>, ex: Extractor, download: string -> Download, now: int): (r: State)
    ensures st.sent <= r.sent
  {
    if IsInQuietHours(hour, minute) then st
    else if Session.SessionNeedsLogin(probe) && !Session.LoginFrom(attempt, reinit, 0).LoggedIn? then
      Send(st, LoginAlert(Session.LoginFrom(attempt, reinit, 0)))
    else
      var checked := CheckCourses(st, cs, ex, download, now);
      var r := RemindCourses(checked, order, ex, now);
      RemindSentOnlyReminders(checked, order, ex, now);
      r
  }

  lemma {:induction false} RemindSentOnlyReminders(st: State, order: seq<string>, ex: Extractor, now: int)
    ensures st.sent <= RemindCourses(st, order, ex, now).sent
    decreases |order|
  {
    if order != [] {
      RemindSentOnlyReminders(st, order[..|order| - 1], ex, now);
      var mid := RemindCourses(st, order[..|order| - 1], ex, now);
      var cid := order[|order| - 1];
      if cid in mid.courseData {
        RemindSectionsOnce(mid, cid, mid.courseData[cid].name, mid.courseData[cid].sections, ex, now);
      }
    }
  }

  /**
    Outside the quiet hours, a cycle whose login fails sends the admin alert, naming
    the cause, and nothing else; a cycle whose session is valid or whose login
    succeeds checks the courses and sends the reminders.
   */
  lemma CycleLoginBranches(st: State, hour: int, minute: int, probe: Session.Probe,
                           attempt: nat -> Session.Attempt, reinit: nat -> Session.Reinit,
                           cs: seq<CourseVisit>, order: seq<string>, ex: Extractor, download: string -> Download, now: int)
    requires !IsInQuietHours(hour, minute)
    ensures var r := CheckAll(st, hour, minute, probe, attempt, reinit, cs, order, ex, download, now);
      var o := Session.LoginFrom(attempt, reinit, 0);
      (Session.SessionNeedsLogin(probe) && !o.LoggedIn? ==>
         r.courseData == st.courseData && r.sentReminders == st.sentReminders
         && r.sentLastDayReminders == st.sentLastDayReminders
         && r.sent == st.sent + [CycleAlert(if o == Session.GaveUp then LoginExhausted else BrowserReinitFailed)])
      && (!Session.SessionNeedsLogin(probe) || o.LoggedIn? ==>
         r == RemindCourses(CheckCourses(st, cs, ex, download, now), order, ex, now))
  {
    var o := Session.LoginFrom(attempt, reinit, 0);
    if Session.SessionNeedsLogin(probe) && !o.LoggedIn? {
      assert LoginAlert(o).cause == (if o == Session.GaveUp then LoginExhausted else BrowserReinitFailed);
    }
  }

  /** During the quiet hours a cycle changes nothing and sends nothing. */
  lemma QuietCycleIsIdle(st: State, hour: int, minute: int, probe: Session.Probe,
                         attempt: nat -> Session.Attempt, reinit: nat -> Session.Reinit,
                         cs: seq<CourseVisit>, order: seq<string>, ex: Extractor, download: string -> Download, now: int)
    requires (hour == 0 && 30 <= minute < 60) || (1 <= hour <= 6 && 0 <= minute < 60) || (hour == 7 && 0 <= minute < 30)
    ensures CheckAll(st, hour, minute, probe, attempt, reinit, cs, order, ex, download, now) == st
  {}
}

