/**
  The monitor itself: the stored maps and the channel log as fields, and the handlers
  of app.js as methods that update them in place. Each method is proved to end in the
  state the corresponding function of the Reconcile module describes, so everything
  proved there holds of the object.
 */
module Monitor {
  import opened Optional
  import opened Dates
  import opened Records
  import opened FileNames
  import opened ChangeDetector
  import opened Reconcile
  import Session

  /** The ids of the ledger entries whose deadline lies before `now` (the first loop of cleanExpiredReminders). */
  method ExpiredKeys(ledger: map<string, ReminderEntry>, now: int) returns (toDelete: set<string>)
    ensures forall k :: k in toDelete <==> k in ledger && EntryExpired(ledger[k], now)
  {
    toDelete := {};
    var keys := ledger.Keys;
    while keys != {}
      invariant keys <= ledger.Keys
      invariant forall k :: k in toDelete <==> k in ledger && k !in keys && EntryExpired(ledger[k], now)
      decreases |keys|
    {
      var k :| k in keys;
      if EntryExpired(ledger[k], now) {
        toDelete := toDelete + {k};
      }
      keys := keys - {k};
    }
  }

  /** The stored records whose deadline has passed (the first loop of pruneExpired). */
  method ExpiredRecords(assignments: map<string, Details>, now: int) returns (toDelete: set<string>)
    ensures toDelete == ExpiredUrls(assignments, now)
  {
    toDelete := {};
    var keys := assignments.Keys;
    while keys != {}
      invariant keys <= assignments.Keys
      invariant forall u :: u in toDelete <==> u in assignments && u !in keys && RecordExpired(assignments[u], now)
      decreases |keys|
    {
      var u :| u in keys;
      if RecordExpired(assignments[u], now) {
        toDelete := toDelete + {u};
      }
      keys := keys - {u};
    }
  }

  /** The records of `assignments` whose id is one of `done`, listing `f` as an attachment. */
  predicate ListedIn(assignments: map<string, Details>, done: set<string>, f: string) {
    exists u :: u in done && u in assignments && f in Urls(AttachmentsOf(assignments[u]))
  }

  /** `currentFileUrls`: every attachment URL of the remaining records. */
  method CurrentFileUrls(assignments: map<string, Details>) returns (urls: set<string>)
    ensures forall f :: f in urls <==> IsAttachmentUrl(assignments, f)
  {
    urls := {};
    var keys := assignments.Keys;
    ghost var done: set<string> := {};
    while keys != {}
      invariant keys <= assignments.Keys && done == assignments.Keys - keys
      invariant forall f :: f in urls <==> ListedIn(assignments, done, f)
      decreases |keys|
    {
      var u :| u in keys;
      var atts := AttachmentsOf(assignments[u]);
      var j := 0;
      while j < |atts|
        invariant 0 <= j <= |atts|
        invariant forall f :: f in urls <==> ListedIn(assignments, done, f) || f in Urls(atts[..j])
      {
        assert atts[..j + 1] == atts[..j] + [atts[j]];
        UrlsSnoc(atts[..j], atts[j]);
        urls := urls + {atts[j].url};
        j := j + 1;
      }
      assert atts[..j] == atts;
      forall f ensures ListedIn(assignments, done + {u}, f) <==> ListedIn(assignments, done, f) || f in Urls(atts) {
        if ListedIn(assignments, done + {u}, f) {
          var w :| w in done + {u} && w in assignments && f in Urls(AttachmentsOf(assignments[w]));
        }
      }
      done := done + {u};
      keys := keys - {u};
    }
  }

  /** The sent-file ids that no remaining record lists (the last loop of pruneExpired). */
  method StaleFiles(sentFiles: map<string, FileRecord>, current: set<string>) returns (stale: set<string>)
    ensures forall f :: f in stale <==> f in sentFiles && f !in current
  {
    stale := {};
    var keys := sentFiles.Keys;
    while keys != {}
      invariant keys <= sentFiles.Keys
      invariant forall f :: f in stale <==> f in sentFiles && f !in keys && f !in current
      decreases |keys|
    {
      var f :| f in keys;
      if f !in current {
        stale := stale + {f};
      }
      keys := keys - {f};
    }
  }

  class Monitor {
    var courseData: map<string, Course>
    var sentReminders: map<string, ReminderEntry>
    var sentLastDayReminders: map<string, ReminderEntry>
    var sent: seq<Msg>

    /** The object's state as a value. */
    function Snap(): State
      reads this
    {
      State(courseData, sentReminders, sentLastDayReminders, sent)
    }

    /** loadData: the stored maps as read back, with the ledgers cleaned. */
    constructor (data: map<string, Course>, reminders: map<string, ReminderEntry>,
                 lastDayReminders: map<string, ReminderEntry>, now: int)
      ensures Snap() == Save(State(data, reminders, lastDayReminders, []), now)
    {
      courseData := data;
      sentReminders := reminders;
      sentLastDayReminders := lastDayReminders;
      sent := [];
      new;
      CleanExpiredReminders(now);
    }

    /** cleanExpiredReminders: both ledgers lose the entries whose deadline has passed. */
    method CleanExpiredReminders(now: int)
      modifies this
      ensures Snap() == Save(old(Snap()), now)
    {
      var gone := ExpiredKeys(sentReminders, now);
      assert sentReminders - gone == CleanLedger(sentReminders, now);
      sentReminders := sentReminders - gone;
      gone := ExpiredKeys(sentLastDayReminders, now);
      assert sentLastDayReminders - gone == CleanLedger(sentLastDayReminders, now);
      sentLastDayReminders := sentLastDayReminders - gone;
    }

    /** saveData: clean the ledgers; writing the files is not modelled. */
    method SaveData(now: int)
      modifies this
      ensures Snap() == Save(old(Snap()), now)
    {
      CleanExpiredReminders(now);
    }

    /** downloadAndSendFile, given what the download of `att` yields. */
    method DownloadAndSendFile(cid: string, att: Attachment, dl: Download, now: int) returns (ok: bool)
      modifies this
      ensures (Snap(), ok) == Deliver(old(Snap()), cid, att, dl, now)
    {
      if cid !in courseData {
        sent := sent + [FileError(att.url, att.fileName)];
        return false;
      }
      if att.url in courseData[cid].sentFiles {
        return false;
      }
      var d := Screen(dl);
      if d == NotDownloaded || d == HtmlPage || d == TooSmall {
        sent := sent + [FileError(att.url, att.fileName)];
        return false;
      }
      var name := NormalizeDuplicateExtension(att.fileName);
      if d == UploadFailed {
        sent := sent + [FileError(att.url, name)];
        return false;
      }
      if d == LinkOnly {
        sent := sent + [FileLinkOnly(att.url, name)];
      } else {
        sent := sent + [FileDocument(att.url, name)];
      }
      var c := courseData[cid];
      courseData := courseData[cid := c.(sentFiles := c.sentFiles[att.url := FileRecord(name, now)])];
      SaveData(now);
      ok := true;
    }

    /** The delivery loop shared by notifyNewActivities and checkForUpdates. */
    method DeliverFiles(cid: string, atts: seq<Attachment>, download: string -> Download, now: int)
      modifies this
      ensures Snap() == DeliverAll(old(Snap()), cid, atts, download, now)
    {
      var i := 0;
      while i < |atts|
        invariant 0 <= i <= |atts|
        invariant Snap() == DeliverAll(old(Snap()), cid, atts[..i], download, now)
      {
        assert atts[..i + 1][..i] == atts[..i];
        var _ := DownloadAndSendFile(cid, atts[i], download(atts[i].url), now);
        i := i + 1;
      }
      assert atts[..i] == atts;
    }

    /** `assignments[url] = details` followed by saveData. */
    method StoreAndSave(cid: string, url: string, d: Details, now: int)
      modifies this
      ensures Snap() == Save(StoreDetails(old(Snap()), cid, url, d), now)
    {
      if cid in courseData {
        var c := courseData[cid];
        courseData := courseData[cid := c.(assignments := c.assignments[url := d])];
      }
      SaveData(now);
    }

    /** The details and the announcement recorded after a notice, followed by saveData. */
    method RecordNotice(cid: string, url: string, d: Details, note: NoteRecord, now: int)
      modifies this
      ensures Snap() == Save(StoreNotice(old(Snap()), cid, url, d, note), now)
    {
      if cid in courseData {
        var c := courseData[cid];
        courseData := courseData[cid := c.(assignments := c.assignments[url := d],
                                           sentNotifications := c.sentNotifications[url := note])];
      }
      SaveData(now);
    }

    /** One new item of notifyNewActivities. */
    method NotifyNewActivity(cid: string, item: NewItem, ex: Extractor, download: string -> Download, now: int)
      modifies this
      ensures Snap() == NotifyOne(old(Snap()), cid, item, ex, download, now)
    {
      var url := item.activity.url;
      if cid !in courseData || url in courseData[cid].sentNotifications {
        return;
      }
      if IsAssignKind(item.activity.kind) {
        var d := AssignNoticeDetails(ex.assign(url));
        if NoticeExpired(d.deadline, now) {
          StoreAndSave(cid, url, d, now);
          return;
        }
        var lastDay := NoticeLastDay(d.deadline, now);
        var atts := d.attachments.value;
        sent := sent + [AssignmentNotice(url, lastDay, if lastDay then [] else atts)];
        if !lastDay {
          DeliverFiles(cid, atts, download, now);
        }
        RecordNotice(cid, url, d, NoteRecord(now, item.activity.name), now);
      } else if IsQuizKind(item.activity.kind) {
        var d := QuizNoticeDetails(ex.quiz(url));
        if NoticeExpired(d.closing, now) {
          StoreAndSave(cid, url, d, now);
          return;
        }
        sent := sent + [QuizNotice(url)];
        RecordNotice(cid, url, d, NoteRecord(now, item.activity.name), now);
      }
    }

    /** notifyNewActivities. */
    method NotifyNewActivities(cid: string, items: seq<NewItem>, ex: Extractor, download: string -> Download, now: int)
      modifies this
      ensures Snap() == NotifyAll(old(Snap()), cid, items, ex, download, now)
    {
      var i := 0;
      while i < |items|
        invariant 0 <= i <= |items|
        invariant Snap() == NotifyAll(old(Snap()), cid, items[..i], ex, download, now)
      {
        assert items[..i + 1][..i] == items[..i];
        NotifyNewActivity(cid, items[i], ex, download, now);
        i := i + 1;
      }
      assert items[..i] == items;
    }

    /** One updated item of checkForUpdates. */
    method CheckForUpdate(cid: string, item: UpdatedItem, ex: Extractor, download: string -> Download, now: int)
      modifies this
      ensures Snap() == UpdateOne(old(Snap()), cid, item, ex, download, now)
    {
      var url := item.activity.url;
      var prev := item.oldDetails;
      if cid !in courseData {
        return;
      }
      if IsAssignKind(item.activity.kind) {
        var f := ex.assign(url);
        if f.AssignFailed? {
          return;
        }
        var cur := AssignRecord(f.opening, f.deadline, f.attachments);
        if UpdateExpired(f.deadline, now) {
          StoreAndSave(cid, url, cur, now);
          return;
        }
        if !SameUrls(AttachmentsOf(prev), f.attachments) && prev.attachments.None? {
          return;
        }
        var notice := AssignUpdate(url, prev, f, now);
        if notice.Some? {
          sent := sent + [notice.value];
          DeliverFiles(cid, AddedFiles(AttachmentsOf(prev), f.attachments), download, now);
        }
        StoreAndSave(cid, url, cur, now);
      } else if IsQuizKind(item.activity.kind) {
        var f := ex.quiz(url);
        if f.QuizFailed? {
          return;
        }
        var cur := QuizRecord(f.opening, f.closing);
        if UpdateExpired(f.closing, now) {
          StoreAndSave(cid, url, cur, now);
          return;
        }
        var notice := QuizUpdate(url, prev, f, now);
        if notice.Some? {
          sent := sent + [notice.value];
        }
        StoreAndSave(cid, url, cur, now);
      }
    }

    /** checkForUpdates. */
    method CheckForUpdates(cid: string, items: seq<UpdatedItem>, ex: Extractor, download: string -> Download, now: int)
      modifies this
      ensures Snap() == UpdateAll(old(Snap()), cid, items, ex, download, now)
    {
      var i := 0;
      while i < |items|
        invariant 0 <= i <= |items|
        invariant Snap() == UpdateAll(old(Snap()), cid, items[..i], ex, download, now)
      {
        assert items[..i + 1][..i] == items[..i];
        CheckForUpdate(cid, items[i], ex, download, now);
        i := i + 1;
      }
      assert items[..i] == items;
    }

    /** One activity of checkAndSendReminders. */
    method RemindActivity(cid: string, courseName: string, a: Activity, ex: Extractor, now: int)
      modifies this
      ensures Snap() == RemindOne(old(Snap()), cid, courseName, a, ex, now)
    {
      var isQuiz := IsQuizKind(a.kind);
      var key := ReminderKey(cid, a.url);
      if IsDeadlineKind(a.kind) && key !in sentReminders {
        var due := ReminderDue(isQuiz, a.url, ex);
        var lastDayKey := LastDayKey(cid, a.url);
        if due.Some? && 0 < due.value - now <= ReminderWindow && lastDayKey !in sentLastDayReminders {
          LogReminder(cid, courseName, a, due.value, now);
        }
      }
    }

    /** Sending a reminder: the message, both ledger entries, then saveData. */
    method LogReminder(cid: string, courseName: string, a: Activity, d: int, now: int)
      modifies this
      ensures Snap() == ReminderSent(old(Snap()), cid, courseName, a, d, now)
    {
      var e := ReminderEntry(now, Some(d), courseName, a.name);
      sent := sent + [ReminderMsg(a.url, IsQuizKind(a.kind), d - now)];
      sentLastDayReminders := sentLastDayReminders[LastDayKey(cid, a.url) := e];
      sentReminders := sentReminders[ReminderKey(cid, a.url) := e];
      SaveData(now);
    }

    /** The activities of one section. */
    method RemindSection(cid: string, courseName: string, acts: seq<Activity>, ex: Extractor, now: int)
      modifies this
      ensures Snap() == RemindActivities(old(Snap()), cid, courseName, acts, ex, now)
    {
      var i := 0;
      while i < |acts|
        invariant 0 <= i <= |acts|
        invariant Snap() == RemindActivities(old(Snap()), cid, courseName, acts[..i], ex, now)
      {
        assert acts[..i + 1][..i] == acts[..i];
        RemindActivity(cid, courseName, acts[i], ex, now);
        i := i + 1;
      }
      assert acts[..i] == acts;
    }

    /** The sections of one course. */
    method RemindCourse(cid: string, courseName: string, secs: seq<Section>, ex: Extractor, now: int)
      modifies this
      ensures Snap() == RemindSections(old(Snap()), cid, courseName, secs, ex, now)
    {
      var i := 0;
      while i < |secs|
        invariant 0 <= i <= |secs|
        invariant Snap() == RemindSections(old(Snap()), cid, courseName, secs[..i], ex, now)
      {
        assert secs[..i + 1][..i] == secs[..i];
        RemindSection(cid, courseName, secs[i].activities, ex, now);
        i := i + 1;
      }
      assert secs[..i] == secs;
    }

    /** checkAndSendReminders, over the course ids in the order `order` gives. */
    method CheckAndSendReminders(order: seq<string>, ex: Extractor, now: int)
      modifies this
      ensures Snap() == RemindCourses(old(Snap()), order, ex, now)
    {
      var i := 0;
      while i < |order|
        invariant 0 <= i <= |order|
        invariant Snap() == RemindCourses(old(Snap()), order[..i], ex, now)
      {
        assert order[..i + 1][..i] == order[..i];
        var cid := order[i];
        if cid in courseData {
          var course := courseData[cid];
          RemindCourse(cid, course.name, course.sections, ex, now);
        }
        i := i + 1;
      }
      assert order[..i] == order;
    }

    /** pruneExpired. */
    method PruneExpired(cid: string, now: int)
      modifies this
      ensures Snap() == Prune(old(Snap()), cid, now)
    {
      if cid !in courseData {
        return;
      }
      var c := courseData[cid];
      var toDelete := ExpiredRecords(c.assignments, now);
      var kept := c.assignments - toDelete;
      assert kept == FilterRecords(c.assignments, ExpiredUrls(c.assignments, now));
      var notes := c.sentNotifications - toDelete;
      assert notes == map u | u in c.sentNotifications && u !in ExpiredUrls(c.assignments, now) :: c.sentNotifications[u];
      var current := CurrentFileUrls(kept);
      var stale := StaleFiles(c.sentFiles, current);
      var files := c.sentFiles - stale;
      assert files == map f | f in c.sentFiles && IsAttachmentUrl(kept, f) :: c.sentFiles[f];
      courseData := courseData[cid := c.(assignments := kept, sentNotifications := notes, sentFiles := files)];
    }

    /** One activity of the prefetch in checkCourse. */
    method PrefetchActivity(cid: string, a: Activity, ex: Extractor, now: int)
      modifies this
      ensures Snap() == PrefetchOne(old(Snap()), cid, a, ex, now)
    {
      if a.url == "" || cid !in courseData {
        return;
      }
      var stored := Stored(Snap(), cid, a.url);
      if IsAssignKind(a.kind) && NeedsAssignFetch(stored) {
        var f := ex.assign(a.url);
        if f.AssignFetched? {
          StoreAndSave(cid, a.url, AssignRecord(f.opening, f.deadline, f.attachments), now);
        }
      } else if IsQuizKind(a.kind) && NeedsQuizFetch(stored) {
        var f := ex.quiz(a.url);
        if f.QuizFetched? {
          StoreAndSave(cid, a.url, QuizRecord(f.opening, f.closing), now);
        }
      }
    }

    /** The prefetch loop of checkCourse over the sections and their activities. */
    method Prefetch(cid: string, secs: seq<Section>, ex: Extractor, now: int)
      modifies this
      ensures Snap() == PrefetchSections(old(Snap()), cid, secs, ex, now)
    {
      var i := 0;
      while i < |secs|
        invariant 0 <= i <= |secs|
        invariant Snap() == PrefetchSections(old(Snap()), cid, secs[..i], ex, now)
      {
        assert secs[..i + 1][..i] == secs[..i];
        ghost var start := Snap();
        var acts := secs[i].activities;
        var j := 0;
        while j < |acts|
          invariant 0 <= j <= |acts|
          invariant Snap() == PrefetchActivities(start, cid, acts[..j], ex, now)
        {
          assert acts[..j + 1][..j] == acts[..j];
          PrefetchActivity(cid, acts[j], ex, now);
          j := j + 1;
        }
        assert acts[..j] == acts;
        i := i + 1;
      }
      assert secs[..i] == secs;
    }

    /**
      checkCourse. The page is read with extractSections as written, which never
      reports LOGIN_REQUIRED, so the relogin branch of the source is not reached.
     */
    method CheckCourse(cid: string, name: string, url: string, v: Visit, ex: Extractor,
                       download: string -> Download, now: int) returns (changes: Changes)
      modifies this
      ensures (Snap(), changes) == Reconcile.CheckCourse(old(Snap()), cid, name, url, v, ex, download, now)
    {
      courseData := EnsureCourse(courseData, cid, name, url);
      var page := Session.ExtractSectionsAsWritten(v.first, v.firstScan);
      changes := ScanSnapshot(cid, page.sections, ex, download, now);
    }

    /** checkCourse once the snapshot is read: prefetch, compare, report, store. */
    method ScanSnapshot(cid: string, sections: seq<Section>, ex: Extractor, download: string -> Download, now: int)
      returns (changes: Changes)
      requires cid in courseData
      modifies this
      ensures (Snap(), changes) == ScanCourse(old(Snap()), cid, sections, ex, download, now)
    {
      Prefetch(cid, sections, ex, now);
      var c := courseData[cid];
      changes := DetectChanges(c.sections, c.assignments, sections);
      if |changes.updatedItems| > 0 {
        CheckForUpdates(cid, changes.updatedItems, ex, download, now);
      }
      if changes.hasChanges {
        NotifyNewActivities(cid, changes.newItems, ex, download, now);
      }
      FinishCheck(cid, sections, now);
    }

    /** The closing steps of checkCourse. */
    method FinishCheck(cid: string, sections: seq<Section>, now: int)
      modifies this
      ensures Snap() == FinishCourse(old(Snap()), cid, sections, now)
    {
      if cid in courseData {
        var c := courseData[cid];
        courseData := courseData[cid := c.(sections := sections, lastChecked := Some(now))];
        PruneExpired(cid, now);
      }
      SaveData(now);
    }

    /** checkAllCourses: one check cycle at Tehran time `hour`:`minute`. */
    method CheckAllCourses(hour: int, minute: int, probe: Session.Probe,
                           attempt: nat -> Session.Attempt, reinit: nat -> Session.Reinit,
                           cs: seq<CourseVisit>, order: seq<string>, ex: Extractor, download: string -> Download, now: int)
      modifies this
      ensures Snap() == CheckAll(old(Snap()), hour, minute, probe, attempt, reinit, cs, order, ex, download, now)
    {
      if IsInQuietHours(hour, minute) {
        return;
      }
      if Session.SessionNeedsLogin(probe) {
        var outcome, _ := Session.Login(attempt, reinit);
        if !outcome.LoggedIn? {
          sent := sent + [LoginAlert(outcome)];
          return;
        }
      }
      CheckCourseList(cs, ex, download, now);
      CheckAndSendReminders(order, ex, now);
    }

    /** The course loop of checkAllCourses. */
    method CheckCourseList(cs: seq<CourseVisit>, ex: Extractor, download: string -> Download, now: int)
      modifies this
      ensures Snap() == CheckCourses(old(Snap()), cs, ex, download, now)
    {
      var i := 0;
      while i < |cs|
        invariant 0 <= i <= |cs|
        invariant Snap() == CheckCourses(old(Snap()), cs[..i], ex, download, now)
      {
        assert cs[..i + 1][..i] == cs[..i];
        var _ := CheckCourse(cs[i].cid, cs[i].name, cs[i].url, cs[i].visit, ex, download, now);
        i := i + 1;
      }
      assert cs[..i] == cs;
    }
  }
}
