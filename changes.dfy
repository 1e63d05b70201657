/**
  detectChanges: compare a freshly extracted course snapshot with the stored one.
  An activity of the new snapshot is new when the stored section of the same name has
  no activity with the same name and URL; a matched activity of a deadline type whose
  details are stored is a candidate for checkForUpdates.
 */
module ChangeDetector {
  import opened Optional
  import opened Records

  datatype NewItem = NewItem(section: string, activity: Activity)
  datatype UpdatedItem = UpdatedItem(section: string, activity: Activity, oldDetails: Details)
  datatype Changes = Changes(hasChanges: bool, newItems: seq<NewItem>, updatedItems: seq<UpdatedItem>)

  const NoChanges := Changes(false, [], [])

  /** `oldSections[name] || []`: the activities stored under a section name. */
  function OldActivities(sections: seq<Section>, name: string): (acts: seq<Activity>)
    ensures (forall k :: 0 <= k < |sections| ==> sections[k].name != name) ==> acts == []
  {
    if sections == [] then []
    else if sections[0].name == name then sections[0].activities
    else OldActivities(sections[1..], name)
  }

  /** With distinct section names, the lookup finds the section of that name. */
  lemma {:induction false} OldActivitiesOf(sections: seq<Section>, k: nat)
    requires k < |sections|
    requires forall i, j :: 0 <= i < j < |sections| ==> sections[i].name != sections[j].name
    ensures OldActivities(sections, sections[k].name) == sections[k].activities
  {
    if k > 0 {
      assert sections[0].name != sections[k].name;
      OldActivitiesOf(sections[1..], k - 1);
    }
  }

  /** `oldActivities.find(a => a.name === activity.name && a.url === activity.url)` succeeds. */
  predicate Listed(acts: seq<Activity>, a: Activity) {
    exists k :: 0 <= k < |acts| && acts[k].name == a.name && acts[k].url == a.url
  }

  /** One activity of the section `sec`: the body of the inner loop. */
  function Step(acc: Changes, sec: string, olds: seq<Activity>, a: Activity, oldAssignments: map<string, Details>): Changes {
    if !Listed(olds, a) then
      acc.(hasChanges := true, newItems := acc.newItems + [NewItem(sec, a)])
    else if IsDeadlineKind(a.kind) && a.url in oldAssignments then
      acc.(updatedItems := acc.updatedItems + [UpdatedItem(sec, a, oldAssignments[a.url])])
    else acc
  }

  /** The inner loop over the activities of one new section. */
  function ScanActivities(acc: Changes, sec: string, olds: seq<Activity>, acts: seq<Activity>,
                          oldAssignments: map<string, Details>): Changes
    decreases |acts|
  {
    if acts == [] then acc
    else ScanActivities(Step(acc, sec, olds, acts[0], oldAssignments), sec, olds, acts[1..], oldAssignments)
  }

  /** The outer loop over the sections of the new snapshot. */
  function ScanSections(acc: Changes, oldSections: seq<Section>, oldAssignments: map<string, Details>,
                        newSections: seq<Section>): Changes
    decreases |newSections|
  {
    if newSections == [] then acc
    else
      var s := newSections[0];
      ScanSections(ScanActivities(acc, s.name, OldActivities(oldSections, s.name), s.activities, oldAssignments),
                   oldSections, oldAssignments, newSections[1..])
  }

  function DetectChanges(oldSections: seq<Section>, oldAssignments: map<string, Details>,
                         newSections: seq<Section>): Changes
  {
    ScanSections(NoChanges, oldSections, oldAssignments, newSections)
  }

  // ---------------------------------------------------------------------------
  // What the scan collects

  /** An activity of the new snapshot that the stored section of its name does not list. */
  predicate IsNew(oldSections: seq<Section>, newSections: seq<Section>, item: NewItem) {
    exists k :: 0 <= k < |newSections| && newSections[k].name == item.section
      && item.activity in newSections[k].activities
      && !Listed(OldActivities(oldSections, item.section), item.activity)
  }

  /** A listed activity of a deadline type with stored details, paired with them. */
  predicate IsUpdateCandidate(oldSections: seq<Section>, oldAssignments: map<string, Details>,
                              newSections: seq<Section>, item: UpdatedItem) {
    (exists k :: 0 <= k < |newSections| && newSections[k].name == item.section
      && item.activity in newSections[k].activities)
    && Listed(OldActivities(oldSections, item.section), item.activity)
    && IsDeadlineKind(item.activity.kind) && item.activity.url in oldAssignments
    && item.oldDetails == oldAssignments[item.activity.url]
  }

  lemma {:induction false} ScanActivitiesCollects(acc: Changes, sec: string, olds: seq<Activity>, acts: seq<Activity>,
                                                  oa: map<string, Details>)
    ensures var r := ScanActivities(acc, sec, olds, acts, oa);
      (forall x :: x in r.newItems <==>
        x in acc.newItems || (x.section == sec && x.activity in acts && !Listed(olds, x.activity)))
      && (forall x :: x in r.updatedItems <==>
        x in acc.updatedItems || (x.section == sec && x.activity in acts && Listed(olds, x.activity)
          && IsDeadlineKind(x.activity.kind) && x.activity.url in oa && x.oldDetails == oa[x.activity.url]))
      && (r.hasChanges <==> acc.hasChanges || exists a :: a in acts && !Listed(olds, a))
    decreases |acts|
  {
    if acts != [] {
      var acc' := Step(acc, sec, olds, acts[0], oa);
      ScanActivitiesCollects(acc', sec, olds, acts[1..], oa);
      assert forall a :: a in acts <==> a == acts[0] || a in acts[1..];
    }
  }

  lemma {:induction false} ScanSectionsCollects(acc: Changes, oldSections: seq<Section>, oa: map<string, Details>,
                                                newSections: seq<Section>)
    ensures var r := ScanSections(acc, oldSections, oa, newSections);
      (forall x :: x in r.newItems <==> x in acc.newItems || IsNew(oldSections, newSections, x))
      && (forall x :: x in r.updatedItems <==> x in acc.updatedItems || IsUpdateCandidate(oldSections, oa, newSections, x))
      && (r.hasChanges <==> acc.hasChanges || exists x :: IsNew(oldSections, newSections, x))
    decreases |newSections|
  {
    if newSections != [] {
      var s := newSections[0];
      var olds := OldActivities(oldSections, s.name);
      var acc' := ScanActivities(acc, s.name, olds, s.activities, oa);
      ScanActivitiesCollects(acc, s.name, olds, s.activities, oa);
      ScanSectionsCollects(acc', oldSections, oa, newSections[1..]);
      var rest := newSections[1..];
      forall x ensures IsNew(oldSections, newSections, x) <==>
        (x.section == s.name && x.activity in s.activities && !Listed(olds, x.activity)) || IsNew(oldSections, rest, x)
      {
        if IsNew(oldSections, newSections, x) {
          var k :| 0 <= k < |newSections| && newSections[k].name == x.section
            && x.activity in newSections[k].activities
            && !Listed(OldActivities(oldSections, x.section), x.activity);
          if k > 0 { assert rest[k - 1] == newSections[k]; }
        }
        if IsNew(oldSections, rest, x) {
          var k :| 0 <= k < |rest| && rest[k].name == x.section
            && x.activity in rest[k].activities
            && !Listed(OldActivities(oldSections, x.section), x.activity);
          assert newSections[k + 1] == rest[k];
        }
      }
      forall x ensures IsUpdateCandidate(oldSections, oa, newSections, x) <==>
        (x.section == s.name && x.activity in s.activities && Listed(olds, x.activity)
          && IsDeadlineKind(x.activity.kind) && x.activity.url in oa && x.oldDetails == oa[x.activity.url])
        || IsUpdateCandidate(oldSections, oa, rest, x)
      {
        if IsUpdateCandidate(oldSections, oa, newSections, x) {
          var k :| 0 <= k < |newSections| && newSections[k].name == x.section
            && x.activity in newSections[k].activities;
          if k > 0 { assert rest[k - 1] == newSections[k]; }
        }
        if IsUpdateCandidate(oldSections, oa, rest, x) {
          var k :| 0 <= k < |rest| && rest[k].name == x.section && x.activity in rest[k].activities;
          assert newSections[k + 1] == rest[k];
        }
      }
      if exists a :: a in s.activities && !Listed(olds, a) {
        var a :| a in s.activities && !Listed(olds, a);
        assert IsNew(oldSections, newSections, NewItem(s.name, a));
      }
      if exists x :: IsNew(oldSections, rest, x) {
        var x :| IsNew(oldSections, rest, x);
        assert IsNew(oldSections, newSections, x);
      }
    }
  }

  /** An item is reported new exactly when the stored section of its name does not list it. */
  lemma NewItemsExact(oldSections: seq<Section>, oa: map<string, Details>, newSections: seq<Section>, x: NewItem)
    ensures x in DetectChanges(oldSections, oa, newSections).newItems <==> IsNew(oldSections, newSections, x)
  {
    ScanSectionsCollects(NoChanges, oldSections, oa, newSections);
  }

  /** Update candidates are exactly the listed deadline activities with stored details. */
  lemma UpdatedItemsExact(oldSections: seq<Section>, oa: map<string, Details>, newSections: seq<Section>, x: UpdatedItem)
    ensures x in DetectChanges(oldSections, oa, newSections).updatedItems <==>
            IsUpdateCandidate(oldSections, oa, newSections, x)
  {
    ScanSectionsCollects(NoChanges, oldSections, oa, newSections);
  }

  /** Only activities of the four deadline types with stored details become update candidates. */
  lemma UpdatedItemsAreDeadlineKinds(oldSections: seq<Section>, oa: map<string, Details>, newSections: seq<Section>)
    ensures forall x :: x in DetectChanges(oldSections, oa, newSections).updatedItems ==>
      x.activity.kind in {"assign", "mod_assign", "quiz", "mod_quiz"} && x.activity.url in oa
  {
    ScanSectionsCollects(NoChanges, oldSections, oa, newSections);
  }

  /** The flag is raised exactly when some item is new. */
  lemma {:induction false} HasChangesIffNewItems(oldSections: seq<Section>, oa: map<string, Details>, newSections: seq<Section>)
    ensures var c := DetectChanges(oldSections, oa, newSections);
            c.hasChanges <==> c.newItems != []
  {
    var c := DetectChanges(oldSections, oa, newSections);
    ScanSectionsCollects(NoChanges, oldSections, oa, newSections);
    if c.newItems != [] {
      assert c.newItems[0] in c.newItems;
    }
  }

  lemma {:induction false} ListedSelf(acts: seq<Activity>, a: Activity)
    requires a in acts
    ensures Listed(acts, a)
  {
    var k :| 0 <= k < |acts| && acts[k] == a;
  }

  /** Comparing a snapshot with itself finds nothing new (section names are distinct, as object keys are). */
  lemma ReplayFindsNothingNew(sections: seq<Section>, oa: map<string, Details>)
    requires forall i, j :: 0 <= i < j < |sections| ==> sections[i].name != sections[j].name
    ensures DetectChanges(sections, oa, sections).newItems == []
    ensures !DetectChanges(sections, oa, sections).hasChanges
  {
    var c := DetectChanges(sections, oa, sections);
    ScanSectionsCollects(NoChanges, sections, oa, sections);
    HasChangesIffNewItems(sections, oa, sections);
    if c.newItems != [] {
      var x := c.newItems[0];
      assert IsNew(sections, sections, x);
      var k :| 0 <= k < |sections| && sections[k].name == x.section
        && x.activity in sections[k].activities
        && !Listed(OldActivities(sections, x.section), x.activity);
      OldActivitiesOf(sections, k);
      ListedSelf(sections[k].activities, x.activity);
      assert false;
    }
  }

  lemma {:induction false} ScanActivitiesNoStore(acc: Changes, sec: string, acts: seq<Activity>, oa: map<string, Details>)
    ensures ScanActivities(acc, sec, [], acts, oa).updatedItems == acc.updatedItems
    decreases |acts|
  {
    if acts != [] {
      assert !Listed([], acts[0]);
      ScanActivitiesNoStore(Step(acc, sec, [], acts[0], oa), sec, acts[1..], oa);
    }
  }

  lemma {:induction false} ScanSectionsNoStore(acc: Changes, oa: map<string, Details>, newSections: seq<Section>)
    ensures ScanSections(acc, [], oa, newSections).updatedItems == acc.updatedItems
    decreases |newSections|
  {
    if newSections != [] {
      var s := newSections[0];
      ScanActivitiesNoStore(acc, s.name, s.activities, oa);
      ScanSectionsNoStore(ScanActivities(acc, s.name, [], s.activities, oa), oa, newSections[1..]);
    }
  }

  /** Against an empty store, as on a course's first check, every activity is new and none is an update. */
  lemma FirstCheckAllNew(newSections: seq<Section>, oa: map<string, Details>, x: NewItem)
    ensures x in DetectChanges([], oa, newSections).newItems <==>
      exists k :: 0 <= k < |newSections| && newSections[k].name == x.section && x.activity in newSections[k].activities
    ensures DetectChanges([], oa, newSections).updatedItems == []
  {
    ScanSectionsCollects(NoChanges, [], oa, newSections);
    ScanSectionsNoStore(NoChanges, oa, newSections);
  }
}
