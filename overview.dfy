/**
  The deadline overview of sendOrUpdateDeadlineOverview: which opening and closing
  dates of the stored assignments and quizzes are listed, in what order, and how they
  are grouped by course.
 */
module Overview {
  import opened Optional
  import opened Dates
  import opened Records

  datatype Event = Opens | Closes

  /** One line of the overview. */
  datatype Entry = Entry(courseName: string, activityName: string, activityKind: string, url: string,
                         info: DateInfo, isQuiz: bool, event: Event)

  /** One course as the overview walks it: its name, its sections and its stored records in key order. */
  datatype Listing = Listing(name: string, sections: seq<Section>, records: seq<(string, Details)>)

  /** The first activity with this URL, searching the sections in order. */
  function FindActivity(sections: seq<Section>, url: string): (a: Option<Activity>)
    ensures a.Some? ==> a.value.url == url
    ensures a.None? ==> forall k, j :: 0 <= k < |sections| && 0 <= j < |sections[k].activities| ==>
                          sections[k].activities[j].url != url
  {
    if sections == [] then None
    else
      match FindIn(sections[0].activities, url)
      case Some(a) => Some(a)
      case None => FindActivity(sections[1..], url)
  }

  function FindIn(acts: seq<Activity>, url: string): (a: Option<Activity>)
    ensures a.Some? ==> a.value.url == url && a.value in acts
    ensures a.None? ==> forall j :: 0 <= j < |acts| ==> acts[j].url != url
  {
    if acts == [] then None else if acts[0].url == url then Some(acts[0]) else FindIn(acts[1..], url)
  }

  /**
    The lines for one stored record: its opening date when it is still ahead, and its
    deadline (its closing date for a quiz) unless that has passed. An activity no
    longer on the page is listed as an assignment named Unknown.
   */
  function EntriesFor(courseName: string, sections: seq<Section>, url: string, d: Details, now: int): seq<Entry> {
    var found := FindActivity(sections, url);
    var name := if found.Some? then found.value.name else "Unknown";
    var kind := if found.Some? then found.value.kind else "assign";
    var isQuiz := IsQuizKind(kind);
    var field := if isQuiz then d.closing else d.deadline;
    var opens := if Known(d.opening) then
                   var info := FormatPersianDate(d.opening.value, now);
                   if info.daysRemaining.Some? && info.daysRemaining.value > 0
                   then [Entry(courseName, name, kind, url, info, isQuiz, Opens)] else []
                 else [];
    var closes := if Known(field) then
                    var info := FormatPersianDate(field.value, now);
                    if info.daysRemaining.Some? && info.daysRemaining.value < 0 then []
                    else [Entry(courseName, name, kind, url, info, isQuiz, Closes)]
                  else [];
    opens + closes
  }

  function RecordEntries(courseName: string, sections: seq<Section>, records: seq<(string, Details)>, now: int): seq<Entry>
  {
    if records == [] then []
    else EntriesFor(courseName, sections, records[0].0, records[0].1, now)
         + RecordEntries(courseName, sections, records[1..], now)
  }

  /** `allDeadlines` before sorting: every course in order, every stored record in order. */
  function SelectEntries(listings: seq<Listing>, now: int): seq<Entry> {
    if listings == [] then []
    else RecordEntries(listings[0].name, listings[0].sections, listings[0].records, now)
         + SelectEntries(listings[1..], now)
  }

  /** The opening line is listed only while the opening is ahead; a passed deadline is never listed. */
  lemma EntriesForRules(courseName: string, sections: seq<Section>, url: string, d: Details, now: int)
    ensures forall e :: e in EntriesFor(courseName, sections, url, d, now) ==>
      e.courseName == courseName && e.url == url
      && (e.event == Opens ==> e.info.daysRemaining.Some? && e.info.daysRemaining.value > 0)
      && (e.event == Closes ==> e.info.daysRemaining.None? || e.info.daysRemaining.value >= 0)
  {}

  /** A record whose deadline field holds a date that has not passed (or does not parse) is always listed. */
  lemma PendingDeadlineListed(courseName: string, sections: seq<Section>, url: string, d: Details, now: int)
    requires var isQuiz := var f := FindActivity(sections, url); f.Some? && IsQuizKind(f.value.kind);
             var field := if isQuiz then d.closing else d.deadline;
             Known(field) && !IsExpired(field.value, now)
    ensures exists e :: e in EntriesFor(courseName, sections, url, d, now) && e.event == Closes
  {
    var es := EntriesFor(courseName, sections, url, d, now);
    assert es[|es| - 1].event == Closes;
  }

  lemma {:induction false} SelectedEntriesRules(listings: seq<Listing>, now: int)
    ensures forall e :: e in SelectEntries(listings, now) ==>
      (e.event == Opens ==> e.info.daysRemaining.Some? && e.info.daysRemaining.value > 0)
      && (e.event == Closes ==> e.info.daysRemaining.None? || e.info.daysRemaining.value >= 0)
    decreases |listings|
  {
    if listings != [] {
      RecordEntriesRules(listings[0].name, listings[0].sections, listings[0].records, now);
      SelectedEntriesRules(listings[1..], now);
    }
  }

  lemma {:induction false} RecordEntriesRules(courseName: string, sections: seq<Section>, records: seq<(string, Details)>, now: int)
    ensures forall e :: e in RecordEntries(courseName, sections, records, now) ==>
      e.courseName == courseName
      && (e.event == Opens ==> e.info.daysRemaining.Some? && e.info.daysRemaining.value > 0)
      && (e.event == Closes ==> e.info.daysRemaining.None? || e.info.daysRemaining.value >= 0)
    decreases |records|
  {
    if records != [] {
      EntriesForRules(courseName, sections, records[0].0, records[0].1, now);
      RecordEntriesRules(courseName, sections, records[1..], now);
    }
  }

  // ---------------------------------------------------------------------------
  // Ordering: ascending days left, lines without a day count last

  /** `a` may stand before `b`. */
  predicate Before(a: Entry, b: Entry) {
    b.info.daysRemaining.None?
    || (a.info.daysRemaining.Some? && a.info.daysRemaining.value <= b.info.daysRemaining.value)
  }

  predicate Ordered(s: seq<Entry>) {
    forall i, j :: 0 <= i < j < |s| ==> Before(s[i], s[j])
  }

  /** Put `e` before the first line it may stand before. */
  function Insert(e: Entry, s: seq<Entry>): (r: seq<Entry>)
    ensures multiset(r) == multiset{e} + multiset(s)
    ensures |r| == |s| + 1
  {
    if s == [] || Before(e, s[0]) then [e] + s
    else assert s == [s[0]] + s[1..]; [s[0]] + Insert(e, s[1..])
  }

  function SortEntries(s: seq<Entry>): (r: seq<Entry>)
    ensures multiset(r) == multiset(s)
  {
    if s == [] then [] else assert s == [s[0]] + s[1..]; Insert(s[0], SortEntries(s[1..]))
  }

  lemma {:induction false} InsertOrdered(e: Entry, s: seq<Entry>)
    requires Ordered(s)
    ensures Ordered(Insert(e, s))
    decreases |s|
  {
    if s != [] && !Before(e, s[0]) {
      InsertOrdered(e, s[1..]);
      var r := Insert(e, s);
      var t := Insert(e, s[1..]);
      assert r == [s[0]] + t;
      forall j | 0 < j < |r| ensures Before(s[0], r[j]) {
        assert r[j] in multiset(t);
        assert r[j] in multiset{e} + multiset(s[1..]);
        if r[j] != e {
          assert r[j] in s[1..];
          var k :| 0 <= k < |s[1..]| && s[1..][k] == r[j];
          assert s[k + 1] == r[j];
        }
      }
    }
  }

  /** The overview is sorted by the comparator's order and lists every selected line once. */
  lemma {:induction false} SortEntriesOrdered(s: seq<Entry>)
    ensures Ordered(SortEntries(s)) && multiset(SortEntries(s)) == multiset(s)
    decreases |s|
  {
    if s != [] {
      SortEntriesOrdered(s[1..]);
      InsertOrdered(s[0], SortEntries(s[1..]));
    }
  }

  /** The lines of `s` whose day count is `k`, in their order. */
  function WithDays(s: seq<Entry>, k: Option<int>): (r: seq<Entry>)
    ensures forall e :: e in r <==> e in s && e.info.daysRemaining == k
  {
    if s == [] then []
    else (if s[0].info.daysRemaining == k then [s[0]] else []) + WithDays(s[1..], k)
  }

  lemma WithDaysCons(x: Entry, t: seq<Entry>, k: Option<int>)
    ensures WithDays([x] + t, k) == (if x.info.daysRemaining == k then [x] else []) + WithDays(t, k)
  {
    assert ([x] + t)[1..] == t;
  }

  /** Insertion passes over lines of other day counts only: it never overtakes a line with its own count. */
  lemma {:induction false} InsertStable(e: Entry, s: seq<Entry>, k: Option<int>)
    ensures WithDays(Insert(e, s), k) == (if e.info.daysRemaining == k then [e] else []) + WithDays(s, k)
    decreases |s|
  {
    if s == [] || Before(e, s[0]) {
      WithDaysCons(e, s, k);
    } else {
      InsertStable(e, s[1..], k);
      assert s == [s[0]] + s[1..];
      WithDaysCons(s[0], s[1..], k);
      WithDaysCons(s[0], Insert(e, s[1..]), k);
      assert s[0].info.daysRemaining != e.info.daysRemaining;
    }
  }

  /** The sort is stable: the lines with one day count keep their input order. */
  lemma {:induction false} SortEntriesStable(s: seq<Entry>, k: Option<int>)
    ensures WithDays(SortEntries(s), k) == WithDays(s, k)
    decreases |s|
  {
    if s != [] {
      SortEntriesStable(s[1..], k);
      InsertStable(s[0], SortEntries(s[1..]), k);
    }
  }

  /** In an ordered overview every line with a day count comes before every line without one. */
  lemma UnknownLast(s: seq<Entry>, i: nat, j: nat)
    requires Ordered(s) && i < |s| && j < |s| && s[i].info.daysRemaining.None? && s[j].info.daysRemaining.Some?
    ensures j < i
  {}

  // ---------------------------------------------------------------------------
  // Grouping by course name, in order of first appearance

  datatype Group = Group(courseName: string, items: seq<Entry>)

  /** The lines of one course, in their order. */
  function OfCourse(s: seq<Entry>, name: string): (r: seq<Entry>)
    ensures forall e :: e in r <==> e in s && e.courseName == name
  {
    if s == [] then []
    else (if s[0].courseName == name then [s[0]] else []) + OfCourse(s[1..], name)
  }

  /** Append a line to its course's group, opening the group when it is the course's first line. */
  function AddToGroup(groups: seq<Group>, e: Entry): (r: seq<Group>)
    ensures |r| == |groups| || |r| == |groups| + 1
  {
    if groups == [] then [Group(e.courseName, [e])]
    else if groups[0].courseName == e.courseName then [groups[0].(items := groups[0].items + [e])] + groups[1..]
    else [groups[0]] + AddToGroup(groups[1..], e)
  }

  /** `byCourse`, built by one pass over the sorted lines. */
  function GroupByCourse(s: seq<Entry>): seq<Group>
    decreases |s|
  {
    if s == [] then [] else AddToGroup(GroupByCourse(s[..|s| - 1]), s[|s| - 1])
  }

  /** The index of the first line of course `name` in `s`, or |s| when there is none. */
  function FirstSeen(s: seq<Entry>, name: string): (r: nat)
    ensures r <= |s|
    ensures r < |s| ==> s[r].courseName == name
    ensures forall k :: 0 <= k < r ==> s[k].courseName != name
    decreases |s|
  {
    if s == [] then 0
    else if s[0].courseName == name then 0
    else 1 + FirstSeen(s[1..], name)
  }

  /** The three properties above fix the first-seen index. */
  lemma FirstSeenUnique(s: seq<Entry>, name: string, k: nat)
    requires k <= |s| && (k < |s| ==> s[k].courseName == name)
    requires forall l :: 0 <= l < k ==> s[l].courseName != name
    ensures FirstSeen(s, name) == k
  {}

  /** Appending a line does not move the first line of a course that already has one. */
  lemma FirstSeenSnoc(s: seq<Entry>, e: Entry, name: string)
    requires FirstSeen(s, name) < |s|
    ensures FirstSeen(s + [e], name) == FirstSeen(s, name)
  {
    var k := FirstSeen(s, name);
    assert (s + [e])[k] == s[k];
    forall l | 0 <= l < k ensures (s + [e])[l].courseName != name {
      assert (s + [e])[l] == s[l];
    }
    FirstSeenUnique(s + [e], name, k);
  }

  predicate DistinctNames(groups: seq<Group>) {
    forall i, j :: 0 <= i < j < |groups| ==> groups[i].courseName != groups[j].courseName
  }

  /** Every group holds exactly its course's lines of `s`, in their order. */
  predicate ItemsOf(groups: seq<Group>, s: seq<Entry>) {
    forall i :: 0 <= i < |groups| ==> groups[i].items == OfCourse(s, groups[i].courseName)
  }

  /** Every line's course has a group. */
  predicate Covers(groups: seq<Group>, s: seq<Entry>) {
    forall e :: e in s ==> exists i :: 0 <= i < |groups| && groups[i].courseName == e.courseName
  }

  predicate NonEmptyGroups(groups: seq<Group>) {
    forall i :: 0 <= i < |groups| ==> groups[i].items != []
  }

  /** The groups come in the order in which their courses first appear in `s`. */
  predicate FirstSeenOrder(groups: seq<Group>, s: seq<Entry>) {
    forall i, j :: 0 <= i < j < |groups| ==> FirstSeen(s, groups[i].courseName) < FirstSeen(s, groups[j].courseName)
  }

  /**
    What a correct grouping of `s` is: every group holds exactly its course's lines in
    order, each course once, no group is empty, and the groups come in the order in
    which their courses first appear in `s`.
   */
  predicate GroupsOf(groups: seq<Group>, s: seq<Entry>) {
    DistinctNames(groups) && ItemsOf(groups, s) && Covers(groups, s) && NonEmptyGroups(groups) && FirstSeenOrder(groups, s)
  }

  /** Every course of a grouping with non-empty groups has a line in `s`. */
  lemma GroupSeen(groups: seq<Group>, s: seq<Entry>, i: nat)
    requires ItemsOf(groups, s) && NonEmptyGroups(groups) && i < |groups|
    ensures FirstSeen(s, groups[i].courseName) < |s|
  {
    var x := groups[i].items[0];
    assert x in OfCourse(s, groups[i].courseName);
    var k :| 0 <= k < |s| && s[k] == x;
  }

  /** Appending a line keeps the first line of every course that has a group. */
  lemma SnocKeepsFirstSeen(groups: seq<Group>, s: seq<Entry>, e: Entry)
    requires ItemsOf(groups, s) && NonEmptyGroups(groups)
    ensures forall i :: 0 <= i < |groups| ==>
      FirstSeen(s + [e], groups[i].courseName) == FirstSeen(s, groups[i].courseName) < |s|
  {
    forall i | 0 <= i < |groups|
      ensures FirstSeen(s + [e], groups[i].courseName) == FirstSeen(s, groups[i].courseName) < |s|
    {
      GroupSeen(groups, s, i);
      FirstSeenSnoc(s, e, groups[i].courseName);
    }
  }

  lemma SnocItems(groups: seq<Group>, s: seq<Entry>, e: Entry, r: seq<Group>)
    requires |r| == |groups|
    requires forall i :: 0 <= i < |r| ==> r[i].courseName == groups[i].courseName
    requires forall i :: 0 <= i < |r| ==>
      r[i].items == groups[i].items + (if e.courseName == groups[i].courseName then [e] else [])
    requires ItemsOf(groups, s)
    ensures ItemsOf(r, s + [e])
  {
    forall i | 0 <= i < |r| ensures r[i].items == OfCourse(s + [e], r[i].courseName) {
      OfCourseSnoc(s, e, r[i].courseName);
    }
  }

  lemma {:induction false} OfCourseSnoc(s: seq<Entry>, e: Entry, name: string)
    ensures OfCourse(s + [e], name) == OfCourse(s, name) + (if e.courseName == name then [e] else [])
    decreases |s|
  {
    if s == [] {
      assert [e][1..] == [];
    } else {
      assert (s + [e])[1..] == s[1..] + [e];
      OfCourseSnoc(s[1..], e, name);
    }
  }

  lemma {:induction false} OfCourseNone(s: seq<Entry>, name: string)
    requires forall k :: 0 <= k < |s| ==> s[k].courseName != name
    ensures OfCourse(s, name) == []
    decreases |s|
  {
    if s != [] {
      OfCourseNone(s[1..], name);
    }
  }

  /** A line of a course that already has a group joins the end of that group. */
  lemma {:induction false} AddToGroupFound(groups: seq<Group>, e: Entry, k: nat)
    requires k < |groups| && groups[k].courseName == e.courseName
    requires forall i :: 0 <= i < k ==> groups[i].courseName != e.courseName
    ensures AddToGroup(groups, e) == groups[k := groups[k].(items := groups[k].items + [e])]
    decreases k
  {
    if k > 0 {
      AddToGroupFound(groups[1..], e, k - 1);
    }
  }

  /** A line of a course without a group opens a new group at the end. */
  lemma {:induction false} AddToGroupNew(groups: seq<Group>, e: Entry)
    requires forall i :: 0 <= i < |groups| ==> groups[i].courseName != e.courseName
    ensures AddToGroup(groups, e) == groups + [Group(e.courseName, [e])]
    decreases |groups|
  {
    if groups != [] {
      AddToGroupNew(groups[1..], e);
    }
  }

  lemma AddToGroupKeeps(groups: seq<Group>, s: seq<Entry>, e: Entry, s': seq<Entry>)
    requires GroupsOf(groups, s) && s' == s + [e]
    ensures GroupsOf(AddToGroup(groups, e), s')
  {
    if k :| 0 <= k < |groups| && groups[k].courseName == e.courseName {
      AddToGroupFound(groups, e, k);
      JoinGroupKeeps(groups, s, e, k);
    } else {
      AddToGroupNew(groups, e);
      NewGroupKeeps(groups, s, e);
    }
  }

  lemma JoinGroupKeeps(groups: seq<Group>, s: seq<Entry>, e: Entry, k: nat)
    requires GroupsOf(groups, s) && k < |groups| && groups[k].courseName == e.courseName
    ensures GroupsOf(groups[k := groups[k].(items := groups[k].items + [e])], s + [e])
  {
    var r := groups[k := groups[k].(items := groups[k].items + [e])];
    SnocItems(groups, s, e, r);
    SnocKeepsFirstSeen(groups, s, e);
    assert Covers(r, s + [e]) by {
      forall x | x in s + [e] ensures exists i :: 0 <= i < |r| && r[i].courseName == x.courseName {
        if x in s {
          var i :| 0 <= i < |groups| && groups[i].courseName == x.courseName;
          assert r[i].courseName == x.courseName;
        } else {
          assert r[k].courseName == x.courseName;
        }
      }
    }
  }

  lemma NewGroupKeeps(groups: seq<Group>, s: seq<Entry>, e: Entry)
    requires GroupsOf(groups, s)
    requires forall i :: 0 <= i < |groups| ==> groups[i].courseName != e.courseName
    ensures GroupsOf(groups + [Group(e.courseName, [e])], s + [e])
  {
    var r := groups + [Group(e.courseName, [e])];
    forall k | 0 <= k < |s| ensures s[k].courseName != e.courseName {
      assert s[k] in s;
    }
    NewGroupItems(groups, s, e);
    NewGroupOrder(groups, s, e);
    NewGroupCovers(groups, s, e);
  }

  lemma NewGroupItems(groups: seq<Group>, s: seq<Entry>, e: Entry)
    requires ItemsOf(groups, s)
    requires forall i :: 0 <= i < |groups| ==> groups[i].courseName != e.courseName
    requires forall k :: 0 <= k < |s| ==> s[k].courseName != e.courseName
    ensures ItemsOf(groups + [Group(e.courseName, [e])], s + [e])
  {
    var r := groups + [Group(e.courseName, [e])];
    OfCourseNone(s, e.courseName);
    SnocItems(groups, s, e, groups);
    OfCourseSnoc(s, e, e.courseName);
    forall i | 0 <= i < |r| ensures r[i].items == OfCourse(s + [e], r[i].courseName) {
      if i < |groups| {
        assert r[i] == groups[i];
      }
    }
  }

  lemma NewGroupOrder(groups: seq<Group>, s: seq<Entry>, e: Entry)
    requires ItemsOf(groups, s) && NonEmptyGroups(groups) && FirstSeenOrder(groups, s)
    requires forall k :: 0 <= k < |s| ==> s[k].courseName != e.courseName
    ensures FirstSeenOrder(groups + [Group(e.courseName, [e])], s + [e])
  {
    var r := groups + [Group(e.courseName, [e])];
    SnocKeepsFirstSeen(groups, s, e);
    forall l | 0 <= l < |s| ensures (s + [e])[l].courseName != e.courseName {
      assert (s + [e])[l] == s[l];
    }
    FirstSeenUnique(s + [e], e.courseName, |s|);
    forall i, j | 0 <= i < j < |r| ensures FirstSeen(s + [e], r[i].courseName) < FirstSeen(s + [e], r[j].courseName) {
      assert r[i] == groups[i];
      if j < |groups| {
        assert r[j] == groups[j];
      }
    }
  }

  lemma NewGroupCovers(groups: seq<Group>, s: seq<Entry>, e: Entry)
    requires Covers(groups, s)
    ensures Covers(groups + [Group(e.courseName, [e])], s + [e])
  {
    var r := groups + [Group(e.courseName, [e])];
    forall x | x in s + [e] ensures exists i :: 0 <= i < |r| && r[i].courseName == x.courseName {
      if x in s {
        var i :| 0 <= i < |groups| && groups[i].courseName == x.courseName;
        assert r[i].courseName == x.courseName;
      } else {
        assert r[|groups|].courseName == x.courseName;
      }
    }
  }

  /** The grouping holds, for each course once, exactly that course's lines in their sorted order. */
  lemma {:induction false} GroupByCourseCorrect(s: seq<Entry>)
    ensures GroupsOf(GroupByCourse(s), s)
    decreases |s|
  {
    if s != [] {
      var init, last := s[..|s| - 1], s[|s| - 1];
      GroupByCourseCorrect(init);
      assert init + [last] == s;
      AddToGroupKeeps(GroupByCourse(init), init, last, s);
    }
  }
  lemma {:induction false} OfCourseOrdered(s: seq<Entry>, name: string)
    requires Ordered(s)
    ensures Ordered(OfCourse(s, name))
    decreases |s|
  {
    if s != [] {
      OfCourseOrdered(s[1..], name);
      var r := OfCourse(s, name);
      var t := OfCourse(s[1..], name);
      if s[0].courseName == name {
        assert r == [s[0]] + t;
        forall j | 0 < j < |r| ensures Before(s[0], r[j]) {
          assert r[j] == t[j - 1];
          assert t[j - 1] in t;
          var k :| 0 <= k < |s[1..]| && s[1..][k] == r[j];
          assert s[k + 1] == r[j];
        }
      }
    }
  }

  /** The overview as built: every course's group is in overview order. */
  function BuildOverview(listings: seq<Listing>, now: int): seq<Group> {
    GroupByCourse(SortEntries(SelectEntries(listings, now)))
  }

  lemma OverviewGroupsOrdered(listings: seq<Listing>, now: int)
    ensures var sorted := SortEntries(SelectEntries(listings, now));
      GroupsOf(BuildOverview(listings, now), sorted)
      && forall i :: 0 <= i < |BuildOverview(listings, now)| ==> Ordered(BuildOverview(listings, now)[i].items)
  {
    var sorted := SortEntries(SelectEntries(listings, now));
    SortEntriesOrdered(SelectEntries(listings, now));
    GroupByCourseCorrect(sorted);
    var g := BuildOverview(listings, now);
    forall i | 0 <= i < |g| ensures Ordered(g[i].items) {
      OfCourseOrdered(sorted, g[i].courseName);
    }
  }
}
