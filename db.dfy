/** The persistence layer: the store that holds both tables, and the start-up
    step that fills an empty activity table with a fixed list of activities. */
module Database {
  import opened Models

  /** The activities added when the activity table is empty, in the order they are added. */
  const SeedList: seq<ActivityFields> := [
    ActivityFields("Chess Club",
      Some("Learn strategies and compete in chess tournaments"),
      Some("Fridays, 3:30 PM - 5:00 PM"),
      Some(12)),
    ActivityFields("Programming Class",
      Some("Learn programming fundamentals and build software projects"),
      Some("Tuesdays and Thursdays, 3:30 PM - 4:30 PM"),
      Some(20)),
    ActivityFields("Gym Class",
      Some("Physical education and sports activities"),
      Some("Mondays, Wednesdays, Fridays, 2:00 PM - 3:00 PM"),
      Some(30)),
    ActivityFields("GitHub Skills",
      Some("Learn practical coding and collaboration skills with GitHub"),
      Some("Wednesdays, 4:00 PM - 5:30 PM"),
      Some(25))
  ]

  /** Adding the rows for `fs` to the session one after another. */
  function AddAll(t: Tables, fs: seq<ActivityFields>): (r: Tables)
    ensures r.participants == t.participants
    ensures |r.activities| == |t.activities| + |fs|
  {
    if fs == [] then t else AddRow(AddAll(t, fs[..|fs| - 1]), fs[|fs| - 1])
  }

  lemma AddAllSnoc(t: Tables, fs: seq<ActivityFields>, f: ActivityFields)
    ensures AddAll(t, fs + [f]) == AddRow(AddAll(t, fs), f)
  {
    assert (fs + [f])[..|fs|] == fs;
  }

  /** The start-up step: seed only when no activity row exists. */
  function SeedIfEmpty(t: Tables): (r: Tables)
    ensures r.participants == t.participants
    ensures t.activities == [] ==> |r.activities| == |SeedList|
    ensures t.activities != [] ==> r == t
  {
    if |t.activities| > 0 then t else AddAll(t, SeedList)
  }

  /** The store gives rows added to an empty activity table the ids 1, 2, 3, ... */
  lemma NewIdAfterSequentialIds(acts: seq<Activity>)
    requires forall k :: 0 <= k < |acts| ==> acts[k].id == k + 1
    ensures NewActivityId(acts) == |acts| + 1
  {
    if acts != [] {
      assert acts[|acts| - 1] in acts;
    }
  }

  /** Rows added to an empty activity table carry exactly the supplied fields,
      numbered from 1, and the participant table is not touched. */
  lemma {:induction false} AddAllOnEmpty(t: Tables, fs: seq<ActivityFields>)
    requires t.activities == []
    ensures AddAll(t, fs).participants == t.participants
    ensures |AddAll(t, fs).activities| == |fs|
    ensures forall k :: 0 <= k < |fs| ==>
              AddAll(t, fs).activities[k].id == k + 1 && FieldsOf(AddAll(t, fs).activities[k]) == fs[k]
  {
    if fs != [] {
      var init := fs[..|fs| - 1];
      AddAllOnEmpty(t, init);
      NewIdAfterSequentialIds(AddAll(t, init).activities);
    }
  }

  /** The seed names are pairwise distinct. */
  lemma SeedNamesDistinct()
    ensures forall i, j :: 0 <= i < |SeedList| && 0 <= j < |SeedList| && SeedList[i].name == SeedList[j].name ==> i == j
  {
  }

  /** The rows seeding writes into an empty activity table: the seed list in
      order, numbered from 1. */
  const SeededActivities: seq<Activity> :=
    [RowOf(1, SeedList[0]), RowOf(2, SeedList[1]), RowOf(3, SeedList[2]), RowOf(4, SeedList[3])]

  /** Seeding an empty activity table produces exactly the four seed
      activities, with ids 1 to 4 and the listed fields, and leaves the
      participant table alone. */
  lemma SeedOnEmptyStore(t: Tables)
    requires t.activities == []
    ensures SeedIfEmpty(t) == Tables(SeededActivities, t.participants)
  {
    AddAllOnEmpty(t, SeedList);
    var acts := SeedIfEmpty(t).activities;
    forall k | 0 <= k < 4
      ensures acts[k] == SeededActivities[k]
    {
      assert acts[k].id == k + 1 && FieldsOf(acts[k]) == SeedList[k];
    }
  }

  /** The seeded activities are named Chess Club, Programming Class, Gym Class
      and GitHub Skills. */
  lemma SeedNames(t: Tables)
    requires t.activities == []
    ensures Names(SeedIfEmpty(t)) == {"Chess Club", "Programming Class", "Gym Class", "GitHub Skills"}
  {
    SeedOnEmptyStore(t);
    var acts := SeededActivities;
    assert acts == [acts[0], acts[1], acts[2], acts[3]];
  }

  /** The seeded activities have capacities 12, 20, 30 and 25. */
  lemma SeedCapacities(t: Tables)
    requires t.activities == []
    ensures Capacity(SeedIfEmpty(t), "Chess Club") == Some(12)
    ensures Capacity(SeedIfEmpty(t), "Programming Class") == Some(20)
    ensures Capacity(SeedIfEmpty(t), "Gym Class") == Some(30)
    ensures Capacity(SeedIfEmpty(t), "GitHub Skills") == Some(25)
  {
    SeedOnEmptyStore(t);
  }

  /** A store that already has activities is left exactly as it is. */
  lemma SeedOnNonEmptyStore(t: Tables)
    requires |t.activities| > 0
    ensures SeedIfEmpty(t) == t
  {
  }

  /** Seeding twice gives the same store as seeding once. */
  lemma SeedIdempotent(t: Tables)
    ensures SeedIfEmpty(SeedIfEmpty(t)) == SeedIfEmpty(t)
  {
    if t.activities == [] {
      AddAllOnEmpty(t, SeedList);
    }
  }

  /** Seeding keeps the schema's rules: distinct ids and distinct names. */
  lemma SeedKeepsWellFormed(t: Tables)
    requires WellFormed(t)
    ensures WellFormed(SeedIfEmpty(t))
  {
    if t.activities == [] {
      SeedOnEmptyStore(t);
      SeedNamesDistinct();
    }
  }

  /** Seeding leaves every participant row pointing at an existing activity;
      an empty activity table can have had no participant rows at all. */
  lemma SeedKeepsReferences(t: Tables)
    requires ReferencesValid(t)
    ensures ReferencesValid(SeedIfEmpty(t))
    ensures t.activities == [] ==> SeedIfEmpty(t).participants == []
  {
    if t.activities == [] {
      NoActivitiesNoParticipants(t);
      SeedOnEmptyStore(t);
    }
  }

  /** Seeding keeps the registry's own invariants: no duplicate signup, and,
      when every participant row points at an existing activity, no activity
      over its capacity. */
  lemma SeedKeepsRegistryInvariants(t: Tables)
    ensures NoDuplicateSignups(t) ==> NoDuplicateSignups(SeedIfEmpty(t))
    ensures ReferencesValid(t) && WithinCapacity(t) ==> WithinCapacity(SeedIfEmpty(t))
  {
    if t.activities == [] && ReferencesValid(t) {
      SeedKeepsReferences(t);
      SeedOnEmptyStore(t);
      forall a | a in SeededActivities
        ensures a.maxParticipants.Some? && a.maxParticipants.value >= 0
      {
      }
    }
  }

  /** On a store whose activity table is empty, every seeded activity starts
      with an empty roster. */
  lemma SeededRostersEmpty(t: Tables)
    requires ReferencesValid(t)
    requires t.activities == []
    ensures forall a :: a in SeedIfEmpty(t).activities ==> Roster(SeedIfEmpty(t), a.name) == []
  {
    SeedKeepsReferences(t);
  }

  /** Participant rows left over without any activity are not removed by
      seeding: those pointing at id 1 end up on the roster of Chess Club, the
      first seeded activity. */
  lemma OrphanRowsJoinChessClub(t: Tables)
    requires t.activities == []
    ensures Roster(SeedIfEmpty(t), "Chess Club") == EmailsOf(t.participants, 1)
  {
    SeedOnEmptyStore(t);
  }

  /** The database handle: both tables, updated in place by the operations. */
  class Store {
    var activities: seq<Activity>
    var participants: seq<Participant>

    function State(): Tables
      reads this
    {
      Tables(activities, participants)
    }

    ghost predicate Valid()
      reads this
    {
      WellFormed(State())
    }

    /** A new database whose tables have just been created. */
    constructor ()
      ensures Valid()
      ensures State() == Tables([], [])
    {
      activities := [];
      participants := [];
    }

    /** Seed the activity table if, and only if, it has no rows. */
    method InitDb()
      requires Valid()
      modifies this
      ensures Valid()
      ensures State() == SeedIfEmpty(old(State()))
      ensures old(ReferencesValid(State())) ==> ReferencesValid(State())
      ensures old(NoDuplicateSignups(State())) ==> NoDuplicateSignups(State())
      ensures old(ReferencesValid(State()) && WithinCapacity(State())) ==> WithinCapacity(State())
    {
      SeedKeepsWellFormed(State());
      if ReferencesValid(State()) {
        SeedKeepsReferences(State());
      }
      SeedKeepsRegistryInvariants(State());
      if |activities| > 0 {
        return;
      }
      AddRows(SeedList);
    }

    /** Add one activity row per element of `fs`, in order. */
    method AddRows(fs: seq<ActivityFields>)
      modifies this
      ensures State() == AddAll(old(State()), fs)
    {
      ghost var t0 := State();
      var i := 0;
      while i < |fs|
        invariant 0 <= i <= |fs|
        invariant participants == t0.participants
        invariant activities == AddAll(t0, fs[..i]).activities
      {
        var f := fs[i];
        AddAllSnoc(t0, fs[..i], f);
        assert fs[..i + 1] == fs[..i] + [f];
        activities := activities + [RowOf(NewActivityId(activities), f)];
        i := i + 1;
      }
      assert fs[..i] == fs;
    }
  }
}
