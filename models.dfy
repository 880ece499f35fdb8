/** The two tables of the store and the rules of their schema.
    An activity row is identified by an integer primary key and carries a name
    that the schema declares unique; a participant row links one email to one
    activity through the foreign key `activityId`. The schema declares no
    uniqueness for the pair (email, activityId) and does not validate emails. */
module Models {

  datatype Option<T> = None | Some(value: T)

  /** One row of the `activity` table; `maxParticipants == None` means unlimited. */
  datatype Activity = Activity(
    id: nat,
    name: string,
    description: Option<string>,
    schedule: Option<string>,
    maxParticipants: Option<int>)

  /** The fields a caller supplies for a new activity, before the store gives it an id. */
  datatype ActivityFields = ActivityFields(
    name: string,
    description: Option<string>,
    schedule: Option<string>,
    maxParticipants: Option<int>)

  /** One row of the `participant` table. */
  datatype Participant = Participant(id: nat, email: string, activityId: nat)

  /** The whole store: both tables, rows in insertion order. */
  datatype Tables = Tables(activities: seq<Activity>, participants: seq<Participant>)

  function FieldsOf(a: Activity): ActivityFields
  {
    ActivityFields(a.name, a.description, a.schedule, a.maxParticipants)
  }

  /** The row stored for the fields `f` under the id `id`. */
  function RowOf(id: nat, f: ActivityFields): Activity
  {
    Activity(id, f.name, f.description, f.schedule, f.maxParticipants)
  }

  // ---------------------------------------------------------------------------
  // The relationship Activity.participants

  /** The emails of the participant rows whose foreign key is `activityId`,
      in table order (the order itself is not something the store promises). */
  function EmailsOf(ps: seq<Participant>, activityId: nat): (r: seq<string>)
  {
    if ps == [] then []
    else
      var last := ps[|ps| - 1];
      EmailsOf(ps[..|ps| - 1], activityId) + (if last.activityId == activityId then [last.email] else [])
  }

  /** The relationship distributes over a split of the participant table. */
  lemma {:induction false} EmailsOfConcat(xs: seq<Participant>, ys: seq<Participant>, activityId: nat)
    ensures EmailsOf(xs + ys, activityId) == EmailsOf(xs, activityId) + EmailsOf(ys, activityId)
  {
    if ys == [] {
      assert xs + ys == xs;
    } else {
      var init := ys[..|ys| - 1];
      assert (xs + ys)[..|xs + ys| - 1] == xs + init;
      EmailsOfConcat(xs, init, activityId);
    }
  }

  /** An activity's participants are exactly the rows that point to it. */
  lemma {:induction false} EmailsOfMembership(ps: seq<Participant>, activityId: nat, email: string)
    ensures email in EmailsOf(ps, activityId) <==>
            exists i :: 0 <= i < |ps| && ps[i].activityId == activityId && ps[i].email == email
  {
    if ps != [] {
      var init := ps[..|ps| - 1];
      EmailsOfMembership(init, activityId, email);
      if email in EmailsOf(ps, activityId) {
        if email in EmailsOf(init, activityId) {
          var i :| 0 <= i < |init| && init[i].activityId == activityId && init[i].email == email;
          assert ps[i] == init[i];
        } else {
          assert ps[|ps| - 1].activityId == activityId && ps[|ps| - 1].email == email;
        }
      }
      if exists i :: 0 <= i < |ps| && ps[i].activityId == activityId && ps[i].email == email {
        var i :| 0 <= i < |ps| && ps[i].activityId == activityId && ps[i].email == email;
        if i < |init| {
          assert init[i] == ps[i];
        }
      }
    }
  }

  /** Indices of the rows selected by "activity_id == activityId and email == email",
      in ascending order. */
  function MatchingRows(ps: seq<Participant>, activityId: nat, email: string): (r: seq<nat>)
    ensures forall k :: 0 <= k < |r| ==>
              r[k] < |ps| && ps[r[k]].activityId == activityId && ps[r[k]].email == email
    ensures forall i :: 0 <= i < |ps| && ps[i].activityId == activityId && ps[i].email == email ==> i in r
  {
    if ps == [] then []
    else
      var n := |ps| - 1;
      MatchingRows(ps[..n], activityId, email)
        + (if ps[n].activityId == activityId && ps[n].email == email then [n] else [])
  }

  /** The number of rows the participant query selects is the number of times
      the email occurs among the activity's participants. */
  lemma {:induction false} MatchingRowsCount(ps: seq<Participant>, activityId: nat, email: string)
    ensures |MatchingRows(ps, activityId, email)| == multiset(EmailsOf(ps, activityId))[email]
  {
    if ps != [] {
      MatchingRowsCount(ps[..|ps| - 1], activityId, email);
    }
  }

  /** The table without the row at index k. */
  function RemoveAt(ps: seq<Participant>, k: nat): (r: seq<Participant>)
    requires k < |ps|
    ensures |r| == |ps| - 1
    ensures forall i :: 0 <= i < |r| ==> r[i] == if i < k then ps[i] else ps[i + 1]
  {
    ps[..k] + ps[k + 1..]
  }

  /** Removing one row removes exactly its own email from its own activity. */
  lemma RemoveAtEmails(ps: seq<Participant>, k: nat, activityId: nat)
    requires k < |ps|
    ensures ps[k].activityId == activityId ==>
              multiset(EmailsOf(RemoveAt(ps, k), activityId))
                == multiset(EmailsOf(ps, activityId)) - multiset{ps[k].email}
    ensures ps[k].activityId != activityId ==>
              EmailsOf(RemoveAt(ps, k), activityId) == EmailsOf(ps, activityId)
  {
    assert ps == ps[..k] + [ps[k]] + ps[k + 1..];
    EmailsOfConcat(ps[..k] + [ps[k]], ps[k + 1..], activityId);
    EmailsOfConcat(ps[..k], [ps[k]], activityId);
    EmailsOfConcat(ps[..k], ps[k + 1..], activityId);
    assert [ps[k]][..0] == [];
  }

  // ---------------------------------------------------------------------------
  // Lookups by name

  /** The activity row selected by "name == name" (the first, of at most one). */
  function FindByName(acts: seq<Activity>, name: string): (r: Option<Activity>)
    ensures r.Some? ==> r.value in acts && r.value.name == name
    ensures r.None? ==> forall a :: a in acts ==> a.name != name
  {
    if acts == [] then None
    else if acts[0].name == name then Some(acts[0])
    else FindByName(acts[1..], name)
  }

  /** The query for the activity called `name`: the row with that name, and
      none exactly when no row has it. */
  function Lookup(t: Tables, name: string): (r: Option<Activity>)
    ensures r.Some? ==> r.value in t.activities && r.value.name == name
    ensures r.None? ==> forall a :: a in t.activities ==> a.name != name
  {
    FindByName(t.activities, name)
  }

  function Names(t: Tables): set<string>
  {
    set a | a in t.activities :: a.name
  }

  function ActivityIds(t: Tables): set<nat>
  {
    set a | a in t.activities :: a.id
  }

  /** The emails registered for the activity called `name` (none if there is no such activity). */
  function Roster(t: Tables, name: string): (r: seq<string>)
  {
    match Lookup(t, name)
    case None => []
    case Some(a) => EmailsOf(t.participants, a.id)
  }

  /** The capacity of the activity called `name`; None if unlimited or absent. */
  function Capacity(t: Tables, name: string): (r: Option<int>)
  {
    match Lookup(t, name)
    case None => None
    case Some(a) => a.maxParticipants
  }

  // ---------------------------------------------------------------------------
  // Integrity rules

  /** The ids of `acts` are pairwise distinct (a primary key). */
  ghost predicate UniqueActivityIds(acts: seq<Activity>)
  {
    forall i, j :: 0 <= i < |acts| && 0 <= j < |acts| && acts[i].id == acts[j].id ==> i == j
  }

  /** The names of `acts` are pairwise distinct (the unique index on `name`). */
  ghost predicate UniqueNames(acts: seq<Activity>)
  {
    forall i, j :: 0 <= i < |acts| && 0 <= j < |acts| && acts[i].name == acts[j].name ==> i == j
  }

  /** The ids of `ps` are pairwise distinct (a primary key). */
  ghost predicate UniqueParticipantIds(ps: seq<Participant>)
  {
    forall i, j :: 0 <= i < |ps| && 0 <= j < |ps| && ps[i].id == ps[j].id ==> i == j
  }

  /** What the schema itself enforces: the primary keys of both tables and the
      unique index on the activity name. */
  ghost predicate WellFormed(t: Tables)
  {
    UniqueActivityIds(t.activities) && UniqueNames(t.activities) && UniqueParticipantIds(t.participants)
  }

  /** Every participant row points to an existing activity. */
  ghost predicate ReferencesValid(t: Tables)
  {
    forall p :: p in t.participants ==> p.activityId in ActivityIds(t)
  }

  /** No two rows of `ps` pair the same email with the same activity. */
  ghost predicate NoDuplicateRows(ps: seq<Participant>)
  {
    forall i, j :: 0 <= i < j < |ps| ==> ps[i].activityId != ps[j].activityId || ps[i].email != ps[j].email
  }

  /** No email is registered twice for one activity. The schema does not
      enforce this; only the check made before each signup maintains it. */
  ghost predicate NoDuplicateSignups(t: Tables)
  {
    NoDuplicateRows(t.participants)
  }

  /** No activity with a capacity holds more participants than that capacity. */
  ghost predicate WithinCapacity(t: Tables)
  {
    forall a :: a in t.activities && a.maxParticipants.Some? ==>
      |EmailsOf(t.participants, a.id)| <= a.maxParticipants.value
  }

  /** Without activities no participant row can point anywhere. */
  lemma NoActivitiesNoParticipants(t: Tables)
    requires ReferencesValid(t)
    requires t.activities == []
    ensures t.participants == []
  {
    assert ActivityIds(t) == {};
    FirstRowIsARow(t.participants);
  }

  /** Names the first row as a row of the table, a step the solver does not
      take by itself; it only unfolds `in` on a sequence. */
  lemma FirstRowIsARow(ps: seq<Participant>)
    ensures ps != [] ==> ps[0] in ps
  {
  }

  /** Under unique names, the lookup by name finds the one row with that name. */
  lemma LookupFinds(t: Tables, a: Activity)
    requires WellFormed(t)
    requires a in t.activities
    ensures Lookup(t, a.name) == Some(a)
  {
    var b := Lookup(t, a.name).value;
    var i :| 0 <= i < |t.activities| && t.activities[i] == a;
    var j :| 0 <= j < |t.activities| && t.activities[j] == b;
    assert t.activities[i].name == t.activities[j].name;
  }

  /** Under unique names, an activity's id determines its row. */
  lemma SameIdSameRow(t: Tables, a: Activity, b: Activity)
    requires WellFormed(t)
    requires a in t.activities && b in t.activities
    ensures a.id == b.id <==> a == b
  {
    var i :| 0 <= i < |t.activities| && t.activities[i] == a;
    var j :| 0 <= j < |t.activities| && t.activities[j] == b;
  }

  /** The multiplicity of an email in a roster is at most one when there are no
      duplicate signups. */
  lemma {:induction false} NoDuplicatesAtMostOnce(ps: seq<Participant>, activityId: nat, email: string)
    requires NoDuplicateRows(ps)
    ensures multiset(EmailsOf(ps, activityId))[email] <= 1
  {
    if ps != [] {
      var n := |ps| - 1;
      var init := ps[..n];
      NoDuplicateRowsPrefix(ps);
      NoDuplicatesAtMostOnce(init, activityId, email);
      var tail := if ps[n].activityId == activityId then [ps[n].email] else [];
      assert EmailsOf(ps, activityId) == EmailsOf(init, activityId) + tail;
      assert multiset(EmailsOf(ps, activityId))[email]
          == multiset(EmailsOf(init, activityId))[email] + multiset(tail)[email];
      if ps[n].activityId == activityId && ps[n].email == email {
        assert ps == init + [ps[n]];
        LastRowIsNew(init, ps[n]);
        EmailsOfMembership(init, activityId, email);
      }
    }
  }

  lemma NoDuplicateRowsPrefix(ps: seq<Participant>)
    requires ps != [] && NoDuplicateRows(ps)
    ensures NoDuplicateRows(ps[..|ps| - 1])
  {
    var init := ps[..|ps| - 1];
    assert forall i :: 0 <= i < |init| ==> init[i] == ps[i];
  }

  /** Under "no duplicates", no earlier row repeats the last row's pair. */
  lemma LastRowIsNew(init: seq<Participant>, p: Participant)
    requires NoDuplicateRows(init + [p])
    ensures forall i :: 0 <= i < |init| ==> init[i].activityId != p.activityId || init[i].email != p.email
  {
    assert forall i :: 0 <= i < |init| ==> (init + [p])[i] == init[i];
    assert (init + [p])[|init|] == p;
  }

  // ---------------------------------------------------------------------------
  // Identifiers assigned by the store

  /** The largest id in `ids` (0 for none). */
  function MaxId(ids: seq<nat>): (m: nat)
    ensures forall i :: 0 <= i < |ids| ==> ids[i] <= m
    ensures ids == [] ==> m == 0
    ensures ids != [] ==> m in ids
  {
    if ids == [] then 0
    else
      var rest := MaxId(ids[..|ids| - 1]);
      if ids[|ids| - 1] > rest then ids[|ids| - 1] else rest
  }

  /** The id an integer primary key gives the next row: one more than the largest in use. */
  function NewActivityId(acts: seq<Activity>): (id: nat)
    ensures id >= 1
    ensures forall a :: a in acts ==> a.id < id
  {
    var ids := seq(|acts|, i requires 0 <= i < |acts| => acts[i].id);
    assert forall i :: 0 <= i < |acts| ==> acts[i].id == ids[i];
    MaxId(ids) + 1
  }

  function NewParticipantId(ps: seq<Participant>): (id: nat)
    ensures id >= 1
    ensures forall p :: p in ps ==> p.id < id
  {
    var ids := seq(|ps|, i requires 0 <= i < |ps| => ps[i].id);
    assert forall i :: 0 <= i < |ps| ==> ps[i].id == ids[i];
    MaxId(ids) + 1
  }

  // ---------------------------------------------------------------------------
  // Inserting an activity row

  /** Adding a row to the session: the row gets the next id; no check is made
      until the transaction commits. */
  function AddRow(t: Tables, f: ActivityFields): (r: Tables)
    ensures r.participants == t.participants
    ensures |r.activities| == |t.activities| + 1
  {
    Tables(t.activities + [RowOf(NewActivityId(t.activities), f)], t.participants)
  }

  datatype InsertResult = Inserted(tables: Tables, id: nat) | UniqueViolation

  /** Adding an activity and committing: the commit fails on the unique index
      when the name is taken, and otherwise stores the row with a fresh id. */
  function Insert(t: Tables, f: ActivityFields): (r: InsertResult)
    ensures r.UniqueViolation? <==> f.name in Names(t)
    ensures r.Inserted? ==>
              && r.id >= 1
              && r.id !in ActivityIds(t)
              && r.tables.participants == t.participants
              && |r.tables.activities| == |t.activities| + 1
              && r.tables.activities[..|t.activities|] == t.activities
              && Lookup(r.tables, f.name) == Some(RowOf(r.id, f))
  {
    if f.name in Names(t) then UniqueViolation
    else
      var id := NewActivityId(t.activities);
      var t' := AddRow(t, f);
      assert t'.activities[..|t.activities|] == t.activities;
      FindByNameAppend(t.activities, RowOf(id, f));
      Inserted(t', id)
  }

  /** Looking up the name of a row appended after rows that do not carry that name finds it. */
  lemma {:induction false} FindByNameAppend(acts: seq<Activity>, a: Activity)
    requires forall b :: b in acts ==> b.name != a.name
    ensures FindByName(acts + [a], a.name) == Some(a)
  {
    if acts != [] {
      assert (acts + [a])[1..] == acts[1..] + [a];
      FindByNameAppend(acts[1..], a);
    }
  }

  /** A row added under a name not yet in use keeps the schema's rules. */
  lemma AddRowKeepsWellFormed(t: Tables, f: ActivityFields)
    requires WellFormed(t)
    requires f.name !in Names(t)
    ensures WellFormed(AddRow(t, f))
  {
    var acts := AddRow(t, f).activities;
    var n := |t.activities|;
    assert forall i :: 0 <= i < n ==> acts[i] == t.activities[i];
    assert acts[n].id == NewActivityId(t.activities) && acts[n].name == f.name;
    forall i | 0 <= i < n ensures acts[i].id != acts[n].id && acts[i].name != acts[n].name {
      assert t.activities[i] in t.activities;
    }
  }

  /** Adding a row adds exactly its id and its name. */
  lemma AddRowKeys(t: Tables, f: ActivityFields)
    ensures ActivityIds(AddRow(t, f)) == ActivityIds(t) + {NewActivityId(t.activities)}
    ensures Names(AddRow(t, f)) == Names(t) + {f.name}
  {
    var a := RowOf(NewActivityId(t.activities), f);
    assert forall b :: b in AddRow(t, f).activities <==> b in t.activities || b == a;
  }

  /** Inserting keeps the schema's rules, and a second activity with a name
      already stored is refused. */
  lemma InsertKeepsWellFormed(t: Tables, f: ActivityFields, g: ActivityFields)
    requires WellFormed(t)
    ensures Insert(t, f).Inserted? ==> WellFormed(Insert(t, f).tables)
    ensures Insert(t, f).Inserted? && g.name == f.name ==> Insert(Insert(t, f).tables, g) == UniqueViolation
  {
    if Insert(t, f).Inserted? {
      AddRowKeepsWellFormed(t, f);
    }
  }

  // ---------------------------------------------------------------------------
  // The relationship partitions the participant table

  /** The sum of the roster sizes of `acts`. */
  function RosterTotal(acts: seq<Activity>, ps: seq<Participant>): nat
  {
    if acts == [] then 0 else |EmailsOf(ps, acts[0].id)| + RosterTotal(acts[1..], ps)
  }

  /** The number of rows of `acts` whose id is `id`. */
  function CountId(acts: seq<Activity>, id: nat): nat
  {
    if acts == [] then 0 else (if acts[0].id == id then 1 else 0) + CountId(acts[1..], id)
  }

  lemma {:induction false} RosterTotalAppend(acts: seq<Activity>, ps: seq<Participant>, p: Participant)
    ensures RosterTotal(acts, ps + [p]) == RosterTotal(acts, ps) + CountId(acts, p.activityId)
  {
    if acts != [] {
      assert (ps + [p])[..|ps + [p]| - 1] == ps;
      RosterTotalAppend(acts[1..], ps, p);
    }
  }

  lemma {:induction false} CountIdOne(acts: seq<Activity>, id: nat)
    requires UniqueActivityIds(acts)
    requires exists a :: a in acts && a.id == id
    ensures CountId(acts, id) == 1
  {
    if acts[0].id == id {
      CountIdZero(acts[1..], id);
    } else {
      var a :| a in acts && a.id == id;
      assert a in acts[1..];
      CountIdOne(acts[1..], id);
    }
  }

  lemma {:induction false} CountIdZero(acts: seq<Activity>, id: nat)
    requires forall a :: a in acts ==> a.id != id
    ensures CountId(acts, id) == 0
  {
    if acts != [] {
      CountIdZero(acts[1..], id);
    }
  }

  /** Every participant row belongs to exactly one activity: the rosters of all
      activities together hold exactly as many entries as the participant table. */
  lemma {:induction false} RostersPartitionParticipants(t: Tables)
    requires WellFormed(t)
    requires ReferencesValid(t)
    ensures RosterTotal(t.activities, t.participants) == |t.participants|
    decreases |t.participants|
  {
    if t.participants == [] {
      EmptyRosterTotal(t.activities);
    } else {
      var n := |t.participants| - 1;
      var init := Tables(t.activities, t.participants[..n]);
      assert forall p :: p in init.participants ==> p in t.participants;
      assert UniqueParticipantIds(init.participants) by {
        forall i, j | 0 <= i < n && 0 <= j < n && init.participants[i].id == init.participants[j].id
          ensures i == j
        {
          assert init.participants[i] == t.participants[i] && init.participants[j] == t.participants[j];
        }
      }
      RostersPartitionParticipants(init);
      var p := t.participants[n];
      assert t.participants == init.participants + [p];
      RosterTotalAppend(t.activities, init.participants, p);
      assert p in t.participants;
      CountIdOne(t.activities, p.activityId);
    }
  }

  lemma {:induction false} EmptyRosterTotal(acts: seq<Activity>)
    ensures RosterTotal(acts, []) == 0
  {
    if acts != [] {
      EmptyRosterTotal(acts[1..]);
    }
  }
}
