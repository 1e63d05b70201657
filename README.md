# VUBOT-FUM monitor: a Dafny model

VUBOT-FUM watches a set of courses on the university's Moodle portal and reports to a
Telegram channel. It reports new assignments and quizzes, changed dates and attachments,
the attached files themselves, and a reminder on the last day before a deadline. This
project models the decision logic of its single class `VUMonitor` (`app.js`) and proves
properties of it.

The modelled behaviour:

- **The monitor object.** `Monitor.Monitor` is a class whose fields are the stored maps
  `courseData`, `sentReminders` and `sentLastDayReminders`, plus a log `sent` that stands
  for the channel. Its methods are the handlers of `app.js`, written with the same loops
  and in-place map updates. Each method is proved to end in the state that a function of
  the `Reconcile` module describes. The lemmas about that function therefore hold of the
  object.
- **Reconcile.** One function per step:
  - delivering a file;
  - announcing a new activity;
  - reporting the changes of a known one;
  - sending a deadline reminder;
  - the prefetch that completes stored dates;
  - dropping expired records;
  - cleaning the reminder ledgers;
  - a whole course check and a whole check cycle.
- **ChangeDetector.** `detectChanges` compares a new course snapshot with the stored one.
- **Dates.** The portal's date texts:
  - the regular expressions of `formatPersianDate`, `calculateDaysRemaining` and the reminder, modelled literally over ASCII `\w`/`\d` and ECMAScript `\s`;
  - 12-hour to 24-hour conversion;
  - the day count `Math.ceil((midnight - now) / day)`;
  - the display bands;
  - the quiet-hours window;
  - the emoji and Persian name tables.
- **FileNames.** The download screening of `downloadAndSendFile` and the cleaner `normalizeDuplicateExtension`, including its splice loop.
- **Overview.** Which dates the deadline overview lists, its sort order, and its grouping by course.
- **Session.** Three decisions:
  - the three-attempt `login` loop;
  - the URL tests for a live session and for a login page;
  - the captcha-reply acceptance test.

  It also models both readings of `extractSections` on a login page (see Findings). The course check
  follows the code as written; `Reconcile.CheckCourseIntended` is the check its login handler intends.

Time is passed in: `now` is an integer number of milliseconds, and the quiet-hours test
takes Tehran's hour and minute. Everything the browser or the network would return is a
parameter fixed for the call:

- `Extractor`: what each activity page yields;
- `download`: what each file URL yields;
- `Visit`: what the course page shows, and how a login attempt ends;
- `Probe`: where the session check lands.

An `order` parameter stands for the order in which `Object.entries(this.courseData)` lists the course ids.

Behaviours of the code worth noting, which the model follows:

- `waitForTelegramResponse` does not compare a reply with earlier replies. `Session.CaptchaReplyNotDeduplicated` shows the same message accepted twice.
- `checkAndSendReminders` tests the last-day ledger after fetching the details, not before. The fetch is a parameter here, so the order changes nothing in the model.
- `checkForUpdates` ignores a changed deadline when both the old and the new one have passed. That rule can never apply, because a passed new deadline has already taken the expiry path (`Reconcile.BothPassedRuleUnreachable`).
- An old assignment record without an attachment list meets new files with `oldDetails.attachments.filter` (app.js:1307). That throws, and the item's catch skips it; `Reconcile.UpdateOne` leaves the state unchanged in that case.
- `login` counts any URL containing `vu.um.ac.ir` as a successful login. That includes the portal's own login page, which the session check treats as logged out (`Session.LoginPageCountsAsSuccess`).

## Model

| member | source | states |
|---|---|---|
| JsText.Trim | app.js:826 | a trimmed text neither starts nor ends with white space |
| JsText.Split | app.js:831 | `split` yields at least one part and no part contains the separator |
| JsText.JoinSplit | app.js:831-844 | joining the parts of a split with the same separator gives the text back |
| JsText.NatToString | app.js:1759 | `toString` of a number is a run of digits whose `parseInt` is the number |
| JsText.PadStart2 | app.js:1759-1761 | `padStart(2, '0')` has length max(2, n) and ends with the original text |
| Dates.MonthNumber | app.js:1739-1745 | a month name maps to m in 1..12 exactly when it is the m-th English month name |
| Dates.MonthNumberOfName | app.js:1739-1744 | each of the twelve names maps back to its own number |
| Dates.DaysUntilIsCeiling | app.js:1765-1766 | the day count d satisfies (d-1) days < t - now <= d days, i.e. it is the ceiling |
| Dates.DaysUntilMonotone | app.js:1764-1766 | the day count never rises as `now` advances |
| Dates.DaysUntilSign | app.js:1766 | the count is negative iff a whole day has passed since the instant, zero iff `now` is within the day starting at it |
| Dates.NoWordCharNoDate | app.js:1733-1734 | a text without ASCII word characters never matches the date pattern |
| Dates.To24HourBijective | app.js:1753-1757 | on hours 1..12 the AM/PM conversion lands in 0..23, gives 12..23 exactly for PM, and no two readings share a result |
| Dates.To24HourOnto | app.js:1753-1757 | every hour 0..23 is the conversion of some 12-hour reading |
| Dates.FormatPersianDate | app.js:1731-1785 | it falls back to the verbatim text with no count exactly when the pattern or month fails; otherwise the count is the ceiling of days from `now` to the named date's midnight |
| Dates.UnknownNeverParses | app.js:1734 | the "unknown" sentinel always takes the fallback |
| Dates.DaysLeftMonotone | app.js:1763-1766 | whether a text parses does not depend on time, and its count never rises as time passes |
| Dates.PassedStaysPassed | app.js:1763-1766 | a date that counts as passed keeps counting as passed |
| Dates.ExpiredIffNextDayBegun | app.js:1763-1766 | a parsed date has a negative count iff the day after it has begun |
| Dates.CountMidnight | app.js:1788-1800 | `calculateDaysRemaining` finds a date iff its pattern matches and the month is one of the twelve |
| Dates.CalculateDaysRemaining | app.js:1786-1808 | the result is null exactly when no date is found; otherwise it is the day count to the named midnight rounded up (the ceiling), or zero once that midnight has come |
| Dates.CalculateDaysRemainingClamp | app.js:1800-1804 | the clamped count is zero iff the midnight is at or before `now`, and it never rises |
| Dates.ReminderDeadline | app.js:1893-1926 | the instant exists iff the reminder pattern matches with a known month; it is the named date's midnight, moved forward by the 24-hour time when a clock is recognised |
| Dates.ReminderDeadlineOffset | app.js:1910-1926 | a recognised time of day shifts the midnight by exactly its hours and minutes |
| Dates.BandOf | app.js:1114-1128 | each band holds exactly its range of day counts: none, negative, 0, 1, 2-3, 4-7, over 7 |
| Dates.QuietHoursWindow | app.js:1822-1825 | on a valid clock the quiet window is exactly 00:30 through 07:29 |
| Dates.GetEmoji | app.js:1677-1690 | the pin emoji is returned exactly for types outside the eight known ones |
| Dates.PersianDayName | app.js:1700-1712 | 0..6 give the weekday names in order; every other number gives the empty string |
| Dates.PersianMonthName | app.js:1713-1730 | 1..12 give the month names in order; every other number gives the empty string |
| Dates.NameTablesInjective | app.js:1700-1730 | distinct numbers get distinct names in both tables |
| Records.NeedsFetchIffUnknownDate | app.js:460-478 | the prefetch skips a record exactly when both its dates are stored and known |
| Records.DefaultsAreRefetched | app.js:460-478 | a record holding the defaults of a failed fetch is fetched again |
| Records.DefaultCourse | app.js:413-422 | a new course record has the page's name and URL and empty maps |
| Records.EnsureCourse | app.js:412-430 | an existing record is kept untouched; a missing one is created; no other course changes. The repair of a stored course without `sentFiles` or `sentNotifications` (app.js:424-430) has no counterpart, because a `Course` always holds both maps |
| Records.EnsureCourseIdempotent | app.js:412-430 | setting up the same course twice gives the record of the first setup |
| Records.Without | app.js:1303-1309 | the filter keeps exactly the attachments whose URL is not listed |
| Records.WithoutOwnUrls | app.js:1303-1309 | filtering a list by its own URLs leaves nothing |
| ChangeDetector.OldActivitiesOf | app.js:907 | with distinct section names, the old lookup finds the section of that name |
| ChangeDetector.NewItemsExact | app.js:906-919 | an item is new iff it is in a new section and the old section of the same name has no activity with equal name and URL |
| ChangeDetector.UpdatedItemsExact | app.js:920-931 | update candidates are exactly the matched deadline-type activities with stored details, paired with them |
| ChangeDetector.UpdatedItemsAreDeadlineKinds | app.js:921-924 | candidates are only of types assign, mod_assign, quiz, mod_quiz and have stored details |
| ChangeDetector.HasChangesIffNewItems | app.js:914-936 | `hasChanges` holds iff `newItems` is non-empty |
| ChangeDetector.ReplayFindsNothingNew | app.js:906-936 | comparing a snapshot with itself finds no new item |
| ChangeDetector.FirstCheckAllNew | app.js:899-919 | against an empty store every activity is new and none is an update |
| Overview.FindActivity | app.js:1043-1050 | the lookup returns an activity with that URL, or none exists |
| Overview.EntriesForRules | app.js:1054-1081 | an opening line is listed only with a positive count; a deadline line only with no count or a non-negative one |
| Overview.PendingDeadlineListed | app.js:1068-1081 | a known deadline that has not passed is always listed |
| Overview.SelectedEntriesRules | app.js:1036-1083 | the selection rules hold of every line of every course |
| Overview.SortEntriesOrdered | app.js:1086-1090 | the sorted list is in ascending count with undated lines last, and is a permutation of the selection |
| Overview.SortEntriesStable | app.js:1086-1090 | the sort is stable: the lines with the same day count keep their selection order, as Array.prototype.sort does for a comparator result of 0 |
| Overview.UnknownLast | app.js:1087-1088 | in a sorted overview every dated line precedes every undated one |
| Overview.GroupByCourseCorrect | app.js:1097-1103 | each course gets one non-empty group holding exactly its lines in order, every line's course has a group, and the groups come in the order their courses first appear |
| Overview.OverviewGroupsOrdered | app.js:1086-1103 | the grouped overview is a correct grouping of the sorted lines, in first-appearance order, and each group is sorted |
| Session.Login | app.js:208-345 | the retry loop ends as the attempt-by-attempt outcome says, after one to three attempts |
| Session.LoggedInAtFirstSuccess | app.js:214-314 | login returns at the first attempt that lands on the portal; every earlier attempt failed and was followed by a successful reinitialisation |
| Session.GaveUpAfterThreeFailures | app.js:211-342 | login gives up iff all three attempts fail and the two reinitialisations between them succeed |
| Session.BrowserLostWhenReinitFails | app.js:323-337 | login throws early only after a failed non-final attempt whose reinitialisation failed twice |
| Session.LoginPageCountsAsSuccess | app.js:309-317 | the portal's login page passes the login success test but fails the session check |
| Session.SessionValidIff | app.js:2031-2040 | the session is reused iff the probe lands on the portal and on no login or OAuth page |
| Session.CaptchaReply | app.js:361-367 | a reply is accepted iff it comes from the admin chat, has non-empty text and is under 30 s old; it is returned trimmed |
| Session.CaptchaReplyEarlier | app.js:364 | a reply accepted at some instant is accepted at every earlier one |
| Session.CaptchaReplyNotDeduplicated | app.js:361-367 | the same message is accepted on two polls; it is rejected once 30 s old |
| Session.ExtractSectionsAsWritten | app.js:517-637 | as written, extractSections always yields a snapshot, never LOGIN_REQUIRED |
| Session.LoginPageReadAsEmptyCourse | app.js:537-541 | as written, an OAuth login page is read as a course with no sections |
| Session.ExtractSections | app.js:537-539 | as intended, LOGIN_REQUIRED is raised iff the page looks like a login page; otherwise the scan is the snapshot |
| Session.ExtractionsAgreeOffLoginPage | app.js:517-541 | off a login page both readings agree |
| FileNames.Screen | app.js:783-873 | each delivery outcome holds exactly for its class of download: failed, HTML, under 100 bytes, over 50 MB, uploaded, upload failed |
| FileNames.DeliveredBodiesAreFiles | app.js:813-821 | a delivered file had a non-HTML body of at least 100 bytes |
| FileNames.DropZeroWidth | app.js:827 | no zero-width character is left and every other character is kept |
| FileNames.CollapseDots | app.js:828 | no two dots are adjacent afterwards |
| FileNames.ReplaceReserved | app.js:830 | exactly the reserved characters become underscores |
| FileNames.CleanNameShape | app.js:826-830 | a cleaned name has no reserved or zero-width character, does not start with white space and does not end with white space or a dot |
| FileNames.KeepOthersMembers | app.js:837-843 | the middle parts kept are exactly those not equal to the extension ignoring ASCII case |
| FileNames.DropRepeatedExtension | app.js:836-843 | the decreasing-index splice loop leaves the first part, the kept middle parts and the extension |
| FileNames.NormalizeDuplicateExtension | app.js:825-845 | the cleaner returns the cleaned name with the middle copies of its extension dropped |
| FileNames.NormalizedParts | app.js:831-844 | when the cleaned name has at least two dots, splitting the result gives exactly the deduplicated parts |
| FileNames.DedupPartsShape | app.js:833-843 | first and last parts are kept; every middle part left is an original part differing from the extension |
| FileNames.DedupIdempotent | app.js:825-845 | when at least three parts remain, dropping repeated extensions a second time changes nothing |
| Reconcile.Save | app.js:198-207 | saving changes only the ledgers, not the courses or the log |
| Reconcile.CleanLedgerKeeps | app.js:2211-2225 | an entry survives cleaning iff it has no deadline or one not before `now`, and then keeps its value |
| Reconcile.CleanLedgerLater | app.js:2211-2225 | cleaning at a later instant subsumes an earlier cleaning; cleaning twice changes nothing |
| Reconcile.SaveTwice | app.js:198-207 | saving twice at the same instant is saving once |
| Reconcile.Deliver | app.js:781-897 | a delivery keeps the set of courses and only appends to the log |
| Reconcile.DeliverNeverResends | app.js:783-786 | a file already recorded is neither sent nor recorded again |
| Reconcile.DeliverOutcome | app.js:783-897 | exactly one message goes out; the file counts as sent iff it was delivered, and only then is it recorded under its cleaned name |
| Reconcile.DeliverAllPass | app.js:1340-1347 | a delivery loop sends only messages about files of its list, delivers no file twice, delivers none recorded before, and records every delivered one |
| Reconcile.AssignNoticeDetails | app.js:1469-1473 | a failed assignment fetch is replaced by the unknown defaults with no attachments |
| Reconcile.QuizNoticeDetails | app.js:1586-1590 | a failed quiz fetch is replaced by the unknown defaults |
| Reconcile.NotifySkipsAnnounced | app.js:1457-1461 | an activity already announced is skipped and nothing changes |
| Reconcile.NotifyExpiredIsSilent | app.js:1475-1492 | a passed deadline stores the details and sends nothing and writes no announcement |
| Reconcile.NotifyFailedFetchSendsBasicNotice | app.js:1469-1559 | a failed fetch still sends a notice without files and records the defaults and the announcement |
| Reconcile.NotifyLastDaySendsNoFiles | app.js:1483-1549 | on the last day the notice lists no attachments and no file is delivered |
| Reconcile.NotifyAssignmentRecordsBoth | app.js:1532-1559 | after a notice both the details and the announcement are recorded, and files follow the notice as a delivery pass |
| Reconcile.NotifyQuizRecordsBoth | app.js:1628-1644 | after a quiz notice both the details and the announcement are recorded and exactly one message goes out |
| Reconcile.NotifyIdempotent | app.js:1453-1666 | announcing the same item again sends nothing more |
| Reconcile.AssignUpdate | app.js:1231-1330 | an assignment update notice is about the item's URL |
| Reconcile.QuizUpdate | app.js:1374-1442 | a quiz update notice concerns dates only and lists no files |
| Reconcile.UpdateFailedFetchChangesNothing | app.js:1210-1214 | a failed fetch leaves the whole state unchanged |
| Reconcile.UpdateExpiredIsSilent | app.js:1216-1229 | a newly passed deadline stores the new details and sends nothing |
| Reconcile.BothPassedRuleUnreachable | app.js:1217-1246 | after the expiry check, a deadline counts as changed iff its text changed |
| Reconcile.AttachmentDeltas | app.js:1303-1329 | added and removed files are the differences of the two lists by URL; no removal is reported when the new list is empty and the old one is not |
| Reconcile.SameUrlsNoDelta | app.js:1292-1295 | lists naming the same URLs add and remove nothing |
| Reconcile.UpdateDeliversOnlyAdded | app.js:1331-1348 | after the update notice only files whose URL the old list lacked are delivered, and none already sent |
| Reconcile.UpdateWithoutChangeIsSilent | app.js:1231-1331 | unchanged dates and files send nothing |
| Reconcile.AssignUpdateIff | app.js:1231-1330 | an assignment notice goes out iff the opening, the deadline or the attachment URLs changed; it is a date notice iff a date changed, carries both change flags, and lists added and removed files only when the files changed |
| Reconcile.QuizUpdateIff | app.js:1374-1391 | a quiz notice goes out iff the opening or the closing changed, with those two flags |
| Reconcile.AssignChangeIsReported | app.js:1231-1351 | a changed assignment whose deadline has not passed gets its update notice as the next message, and its new details are stored |
| Reconcile.QuizChangeIsReported | app.js:1374-1445 | a quiz whose closing has not passed sends exactly its update notice when a date changed and nothing otherwise, and its new details are stored |
| Reconcile.RemindOneOutcome | app.js:1878-1983 | a reminder goes out iff neither ledger holds the activity and the deadline is 0-24 h ahead; it gives whole hours and minutes left; both ledgers then record the deadline |
| Reconcile.RemindOnce | app.js:1882-1980 | visiting the same activity again sends nothing more |
| Reconcile.RemindOnceLater | app.js:2211-2225 | once a reminder has gone out, a save at any later instant (cleanExpiredReminders) followed by a visit at any instant after that sends no second reminder: the ledger entry survives while the deadline is ahead, and past the deadline the reminder window is closed |
| Reconcile.RemindActivitiesOnce | app.js:1877-1983 | a section's pass only appends reminders, each for a distinct URL whose main-ledger entry has a deadline still ahead |
| Reconcile.RemindSectionsOnce | app.js:1876-1983 | the same holds across one course's sections, even for an activity listed twice |
| Reconcile.RemindCourses | app.js:1875-1997 | the reminder pass never changes the course records |
| Reconcile.PruneCourseCorrect | app.js:2179-2209 | no expired record or its announcement remains; every other record and announcement is kept; each remaining sent file is an attachment of a remaining record |
| Reconcile.PruneKeepsUndated | app.js:2180-2183 | a record with no deadline or closing text, or one that does not parse, is kept |
| Reconcile.PrunedNothingExpired | app.js:2179-2191 | after removing the expired records none of those left is expired |
| Reconcile.PruneIdempotent | app.js:2173-2210 | pruning twice at the same instant is pruning once |
| Reconcile.PrefetchSkipsKnown | app.js:460-478 | an activity whose dates are both known is not fetched again |
| Reconcile.PrefetchStores | app.js:461-467 | a successful fetch is stored; a failed one leaves the state unchanged |
| Reconcile.PrefetchFrame | app.js:446-497 | only the fetched record changes; sent files, announcements, sections and other courses are untouched |
| Reconcile.VisitSnapshot | app.js:429-444 | as written, the snapshot is the first reading whatever the page, a login page included; a scan that throws gives no sections |
| Reconcile.IntendedSnapshot | app.js:435-444 | as intended, the check gives up iff the page is a login page and either login fails or the page after it is still one; off a login page it reads what the code reads |
| Reconcile.CheckCourseIntendedGivesUp | app.js:435-444 | when the intended check gives up, only the course record is set up and no change is reported |
| Reconcile.CheckCoursesAgreeOffLoginPage | app.js:429-444 | off a login page the check as written and the intended one end in the same state with the same changes |
| Reconcile.LoginPageEmptiesCourse | app.js:429-515 | as written, a course page redirected to the login page is stored with no sections, stamped as checked, and reported unchanged |
| Reconcile.CheckCourseStoresSnapshot | app.js:511-515 | after a check the record holds the snapshot read, the check time and no expired record |
| Reconcile.ScanCourseStores | app.js:511-514 | the scan of a snapshot stores it with the check time and leaves no expired record |
| Reconcile.CheckCourse | app.js:381-516 | checkCourse as written: creates the record if needed, only appends to the log; its effects are stated by CheckCourseStoresSnapshot and LoginPageEmptiesCourse |
| Reconcile.CheckCourseIntended | app.js:429-444 | the intended checkCourse: creates the record if needed and only appends to the log; CheckCourseIntendedGivesUp and CheckCoursesAgreeOffLoginPage state the rest |
| Reconcile.CheckAll | app.js:1998-2131 | a check cycle only appends to the log |
| Reconcile.QuietCycleIsIdle | app.js:2002-2009 | during 00:30-07:29 a cycle changes nothing and sends nothing |
| Reconcile.LoginAlert | app.js:2116-2127 | the admin alert of the outer catch, naming the cause: a browser that could not be reinitialised, or retries exhausted |
| Reconcile.CycleLoginBranches | app.js:2048-2127 | outside the quiet hours, a cycle whose login fails changes no stored data and sends exactly the admin alert; otherwise it checks the courses and then sends the reminders |
| ChangeDetector.DetectChanges | app.js:898-936 | detectChanges; NewItemsExact, UpdatedItemsExact and HasChangesIffNewItems characterise its result |
| Reconcile.CleanLedger | app.js:2211-2225 | cleanExpiredReminders on one ledger; CleanLedgerKeeps and CleanLedgerLater state which entries survive |
| Reconcile.DeliverAll | app.js:1340-1347 | the delivery loop over a list of attachments; DeliverAllPass states what it sends and records |
| Reconcile.NotifyOne | app.js:1455-1665 | one new item of notifyNewActivities; the Notify lemmas above state each of its branches |
| Reconcile.NotifyAll | app.js:1453-1666 | notifyNewActivities over the new items in order, keeping the set of courses and only appending to the log |
| Reconcile.UpdateOne | app.js:1204-1451 | one updated item of checkForUpdates; UpdateFailedFetchChangesNothing, UpdateExpiredIsSilent, AssignChangeIsReported, QuizChangeIsReported and UpdateDeliversOnlyAdded state its branches |
| Reconcile.UpdateAll | app.js:1202-1452 | checkForUpdates over the updated items in order, keeping the set of courses and only appending to the log |
| Reconcile.RemindOne | app.js:1878-1983 | one activity of checkAndSendReminders; RemindOneOutcome and RemindOnce state its effect |
| Reconcile.RemindActivities | app.js:1877-1990 | the reminder loop over a section's activities; RemindActivitiesOnce states what it sends |
| Reconcile.RemindSections | app.js:1876-1991 | the reminder loop over a course's sections; RemindSectionsOnce states what it sends |
| Reconcile.PruneCourse | app.js:2179-2209 | pruneExpired on one course record; PruneCourseCorrect, PruneKeepsUndated and PruneIdempotent state its effect |
| Reconcile.Prune | app.js:2173-2210 | pruneExpired on the course `cid`, the other courses and the log unchanged |
| Reconcile.PrefetchOne | app.js:449-495 | the prefetch of one activity; PrefetchSkipsKnown, PrefetchStores and PrefetchFrame state its effect |
| Reconcile.PrefetchSections | app.js:446-497 | the prefetch over all sections, keeping the set of courses and the log |
| Reconcile.ScanCourse | app.js:446-515 | checkCourse after the page is read; ScanCourseStores states what it stores |
| Reconcile.FinishCourse | app.js:511-514 | store the snapshot and check time, prune, save; keeps the set of courses and the log |
| Reconcile.CheckCourses | app.js:2051-2104 | the course loop of checkAllCourses, only appending to the log and losing no course |
| Overview.SelectEntries | app.js:1036-1084 | the overview lines of all courses; SelectedEntriesRules and PendingDeadlineListed state which are listed |
| Overview.SortEntries | app.js:1086-1090 | the overview sort; SortEntriesOrdered states it is ordered and a permutation |
| Overview.GroupByCourse | app.js:1097-1103 | the grouping by course; GroupByCourseCorrect states it is correct and in first-appearance order |
| Overview.BuildOverview | app.js:1036-1103 | select, sort and group; OverviewGroupsOrdered states the result |
| Dates.DaysUntil | app.js:1764-1766 | the day count; DaysUntilIsCeiling states it is the ceiling of the distance in days |
| Dates.IsInQuietHours | app.js:1809-1830 | the quiet-hours test; QuietHoursWindow states its window |
| Dates.FindDate | app.js:1733-1734 | the first match of the date pattern of formatPersianDate; NoWordCharNoDate states a case it rejects |
| Session.LoginFrom | app.js:208-345 | the outcome of the login loop from one attempt on; LoggedInAtFirstSuccess, GaveUpAfterThreeFailures and BrowserLostWhenReinitFails characterise it |
| Session.SessionNeedsLogin | app.js:2027-2040 | the session check; SessionValidIff states exactly when the session is reused |
| FileNames.CleanName | app.js:826-830 | the cleaning stages of normalizeDuplicateExtension; CleanNameShape states the shape of its result |
| FileNames.NormalizedName | app.js:825-845 | the cleaned name with repeated extensions dropped; NormalizedParts, DedupPartsShape and DedupIdempotent characterise it |
| Monitor.ExpiredKeys | app.js:2215-2220 | the keys collected are exactly those whose deadline is before `now` |
| Monitor.ExpiredRecords | app.js:2177-2186 | the records collected are exactly the expired ones |
| Monitor.CurrentFileUrls | app.js:2194-2200 | the set holds exactly the attachment URLs of the remaining records |
| Monitor.StaleFiles | app.js:2200-2205 | the files collected are exactly the sent files no remaining record lists |
| Monitor.Monitor.constructor | app.js:42-197 | loading starts from the stored maps with the ledgers cleaned and an empty log |
| Monitor.Monitor.CleanExpiredReminders | app.js:2211-2225 | both ledgers lose exactly their expired entries in place |
| Monitor.Monitor.SaveData | app.js:198-207 | saving is cleaning the ledgers |
| Monitor.Monitor.DownloadAndSendFile | app.js:781-897 | the new state and the result are those of Reconcile.Deliver |
| Monitor.Monitor.DeliverFiles | app.js:1340-1347 | the delivery loop ends in Reconcile.DeliverAll |
| Monitor.Monitor.StoreAndSave | app.js:1350-1351 | the record is stored, then saved |
| Monitor.Monitor.RecordNotice | app.js:1551-1559 | details and announcement are stored, then saved |
| Monitor.Monitor.NotifyNewActivity | app.js:1455-1665 | one new item ends in Reconcile.NotifyOne |
| Monitor.Monitor.NotifyNewActivities | app.js:1453-1666 | the loop ends in Reconcile.NotifyAll |
| Monitor.Monitor.CheckForUpdate | app.js:1204-1451 | one updated item ends in Reconcile.UpdateOne |
| Monitor.Monitor.CheckForUpdates | app.js:1202-1452 | the loop ends in Reconcile.UpdateAll |
| Monitor.Monitor.RemindActivity | app.js:1878-1983 | one activity ends in Reconcile.RemindOne |
| Monitor.Monitor.LogReminder | app.js:1959-1982 | the reminder, both ledger entries and a save |
| Monitor.Monitor.RemindSection | app.js:1877-1990 | the activity loop ends in Reconcile.RemindActivities |
| Monitor.Monitor.RemindCourse | app.js:1876-1991 | the section loop ends in Reconcile.RemindSections |
| Monitor.Monitor.CheckAndSendReminders | app.js:1869-1997 | the course loop ends in Reconcile.RemindCourses |
| Monitor.Monitor.PruneExpired | app.js:2173-2210 | the in-place deletions end in Reconcile.Prune |
| Monitor.Monitor.PrefetchActivity | app.js:449-495 | one activity of the prefetch ends in Reconcile.PrefetchOne |
| Monitor.Monitor.Prefetch | app.js:446-497 | the nested prefetch loop ends in Reconcile.PrefetchSections |
| Monitor.Monitor.CheckCourse | app.js:381-516 | the course check, reading the page as written, ends in Reconcile.CheckCourse, changes included |
| Monitor.Monitor.ScanSnapshot | app.js:446-515 | the scan of a read snapshot ends in Reconcile.ScanCourse |
| Monitor.Monitor.FinishCheck | app.js:511-514 | storing the snapshot, pruning and saving ends in Reconcile.FinishCourse |
| Monitor.Monitor.CheckAllCourses | app.js:1998-2131 | a check cycle ends in Reconcile.CheckAll |
| Monitor.Monitor.CheckCourseList | app.js:2045-2104 | the course loop ends in Reconcile.CheckCourses |

## Left out

- Browser automation is not modelled: `initialize`, `findChromePath`, `isBrowserHealthy`, `clearBrowserCache`, navigation, and the DOM reading inside `extractSections`, `extractQuizDetails` and `extractAssignmentDetails`. Their results are the `Extractor`, `Visit` and `Probe` parameters.
- The channel messages and the cycle's admin alert (`CycleAlert`) become appends to the `sent` log. Only message kinds are modelled, not the HTML/Persian text, and the alert carries its cause rather than `error.message`. `sendTelegramMessage` swallows its own errors, so its messages always count as sent; the alert's own send failure is caught the same way.
- The admin-chat messages of the captcha exchange are not modelled: the captcha photo (app.js:268-270) and the code-received acknowledgement (app.js:366). They happen inside a login attempt, whose outcome is the `attempt` parameter.
- The course and deadline overview messages are not modelled, nor their edit-or-send plumbing and `courseMessageIds`/`deadlineMessageId`; they are formatting and I/O. The deadline overview's selection, sort and grouping are modelled (Overview).
- Persistence is not modelled: `loadData`/`saveData` file I/O, `fs` writes of downloaded files, and the axios request. A saved file is assumed to be written successfully. The download result is the `Download` parameter.
- `CronJob`, `start`, `stop`, `runWithTimeout` and the per-course error recovery of `checkAllCourses` are not modelled. That recovery covers the timeout race, the identity-provider button, browser re-initialisation, and a course whose navigation throws. In the model every configured course is checked.
- The polling loop of `waitForTelegramResponse` has no bound of its own and is not modelled; only its acceptance test is (Session.CaptchaReply).
- The clock is frozen: each top-level call takes a single `now`, whereas the source reads `new Date()` afresh at every step.
- The host time zone is taken to be UTC for `new Date(y, m, d, h, min)`. Tehran's hour and minute for the quiet-hours test come from the caller, because `Intl.DateTimeFormat` is not modelled.
- The Shamsi conversion (moment-jalaali `convertToShamsi`) is not modelled. The displayed date keeps only the weekday, the Gregorian `YYYY-MM-DD` string handed to the conversion, and the 24-hour time.
- The floating-point arithmetic is replaced by integers: `hoursUntilDeadline`, `toFixed` megabytes, and `Math.ceil` on doubles. Whole hours and minutes come from floor division of milliseconds, which agrees with the source up to the rounding of doubles.
- `String.prototype.normalize('NFC')` and `decodeURIComponent` are foreign, so names are taken as already normalised. `\w`, `\d` and `toLowerCase` are ASCII-only; JavaScript's `\w` is ASCII too, but its `toLowerCase` folds non-ASCII letters, which the model leaves unchanged.
- JavaScript `Date` edge cases are not modelled: an invalid date (NaN) from a huge year, and month names such as `constructor` that hit `Object.prototype` in the month tables; likewise an activity type such as `constructor` makes `getEmoji` return an inherited `Object.prototype` member instead of the pin emoji.
- Map iteration order is a parameter where it matters (`order` for the stored courses). Elsewhere the maps are unordered and the loops over them collect sets. The deadline overview's groups are kept in first-appearance order, whereas `Object.entries(byCourse)` lists integer-like course names first, in ascending numeric order.
- Reconcile.CheckCourses: states only that the log grows and no course record disappears; the facts about each course are stated by the lemmas about Reconcile.CheckCourse.
- Overview.SortEntriesStable: keeps the selection order among undated lines too. The source's comparator returns 1 for two undated lines whichever comes first, so their order there is up to the JavaScript engine.
- Reconcile.CheckAll: states only that the log grows; its branches are stated by Reconcile.QuietCycleIsIdle and Reconcile.CycleLoginBranches and by the lemmas about the steps it runs. Of the failures the outer catch reports, only a failed login is modelled; a failing `initialize` in the session check, `clearBrowserCache` or `checkAndSendReminders` is not.
- Reconcile.Deliver, Reconcile.CheckCourse, Reconcile.CheckCourseIntended and the other step functions: their own ensures state only frame facts; what each step does is stated by the lemmas listed beside it in the table.
- FileNames.NormalizedParts: states the parts of the result in terms of DedupParts; what those parts are is stated by FileNames.DedupPartsShape.
- Unreachable guards are not modelled as throwing. A missing course record at a point where `checkCourse` has always created it just leaves the state as it was. The model also leaves out the catch blocks that only an unmodelled failure could reach, such as a failing `formatPersianDate`, which never throws here.
- The Persian "unknown" sentinel is the only unknown value; absent and empty fields are told apart as JavaScript truthiness does (Records.Known).

## Findings

| source | as written | input that shows it | evidently intended | confidence | as-written member | corrected member |
|---|---|---|---|---|---|---|
| app.js:521-541 | the `LOGIN_REQUIRED` error is thrown inside a `try` whose `catch` is empty, so extractSections reads a login page as a course with no sections, and the relogin branch of checkCourse (app.js:435-444) is never taken | a course URL that redirects to `https://oauth.um.ac.ir/` with the login form present: the stored course loses its sections and the next cycle's detectChanges reports every activity as new; no activity is announced twice, though, because the `sentNotifications` guard skips the announced ones (Reconcile.NotifySkipsAnnounced) | a login page aborts the scan with `LOGIN_REQUIRED`, so checkCourse logs in once and reads the page again, as its log line and handler say | high (not executed) | Session.ExtractSectionsAsWritten, Session.LoginPageReadAsEmptyCourse, Reconcile.CheckCourse, Reconcile.LoginPageEmptiesCourse | Session.ExtractSections, Reconcile.CheckCourseIntended, Reconcile.CheckCourseIntendedGivesUp |
