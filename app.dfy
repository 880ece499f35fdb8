/** The API layer: listing the activities, signing a student up for one and
    unregistering a student from one, with the business rules that decide
    between success and the error responses. */
module Api {
  import opened Models
  import opened Database

  /** The errors the endpoints raise instead of answering with a message. */
  datatype Failure =
    | NotFound            // no activity has that name
    | AlreadySignedUp     // the email is already registered for the activity
    | Full                // the activity has a capacity and has reached it
    | NotSignedUp         // unregister: the email is not registered for the activity
    | MultipleRowsFound   // unregister: the participant query selected more than one row

  /** The HTTP status each error is answered with; the last one is not
      caught by the endpoint and surfaces as a server error. */
  function StatusCode(f: Failure): (code: int)
    ensures f == NotFound <==> code == 404
    ensures f == MultipleRowsFound <==> code == 500
    ensures f != NotFound && f != MultipleRowsFound <==> code == 400
  {
    match f
    case NotFound => 404
    case AlreadySignedUp => 400
    case Full => 400
    case NotSignedUp => 400
    case MultipleRowsFound => 500
  }

  /** `sub` occurs in `s` at some position. */
  predicate Contains(s: string, sub: string)
    decreases |s|
  {
    sub <= s || (|s| > 0 && Contains(s[1..], sub))
  }

  /** An occurrence at position `i` is an occurrence. */
  lemma {:induction false} ContainsAt(s: string, sub: string, i: nat)
    requires i + |sub| <= |s| && s[i..i + |sub|] == sub
    ensures Contains(s, sub)
  {
    if i > 0 {
      assert s[1..][i - 1..i - 1 + |sub|] == s[i..i + |sub|];
      ContainsAt(s[1..], sub, i - 1);
    } else {
      assert s[..|sub|] == sub;
    }
  }

  /** Text written around `sub` still contains it. */
  lemma ContainsMiddle(a: string, sub: string, b: string)
    ensures Contains(a + sub + b, sub)
  {
    assert (a + sub + b)[|a|..|a| + |sub|] == sub;
    ContainsAt(a + sub + b, sub, |a|);
  }

  lemma ContainsSuffix(a: string, sub: string)
    ensures Contains(a + sub, sub)
  {
    assert (a + sub)[|a|..|a| + |sub|] == sub;
    ContainsAt(a + sub, sub, |a|);
  }

  /** The detail text each error is answered with; each names its reason in
      the words clients look for. */
  function Detail(f: Failure): (d: string)
    ensures f == NotFound ==> Contains(d, "Activity not found")
    ensures f == AlreadySignedUp ==> Contains(d, "already signed up")
    ensures f == Full ==> Contains(d, "full")
    ensures f == NotSignedUp ==> Contains(d, "not signed up")
  {
    match f
    case NotFound => "Activity not found"
    case AlreadySignedUp =>
      ContainsSuffix("Student is ", "already signed up");
      "Student is " + "already signed up"
    case Full =>
      ContainsSuffix("Activity is ", "full");
      "Activity is " + "full"
    case NotSignedUp =>
      ContainsMiddle("Student is ", "not signed up", " for this activity");
      "Student is " + "not signed up" + " for this activity"
    case MultipleRowsFound => "Internal Server Error"
  }

  datatype Response = Ok(message: string) | Err(failure: Failure)

  /** The store after a request, and the answer to it. */
  datatype Outcome = Outcome(tables: Tables, response: Response)

  /** What one listed activity shows. */
  datatype ActivityView = ActivityView(
    description: Option<string>,
    schedule: Option<string>,
    maxParticipants: Option<int>,
    participants: seq<string>)

  // ---------------------------------------------------------------------------
  // The two state-changing requests, as functions of the store

  /** Sign `email` up for the activity called `name`. The checks run in this
      order: unknown activity, already registered, capacity reached. */
  function Signup(t: Tables, name: string, email: string): (o: Outcome)
    ensures o.response.Err? ==> o.tables == t
    ensures o.tables.activities == t.activities
  {
    match Lookup(t, name)
    case None => Outcome(t, Err(NotFound))
    case Some(a) =>
      var current := EmailsOf(t.participants, a.id);
      if email in current then Outcome(t, Err(AlreadySignedUp))
      else if a.maxParticipants.Some? && |current| >= a.maxParticipants.value then Outcome(t, Err(Full))
      else
        var p := Participant(NewParticipantId(t.participants), email, a.id);
        Outcome(Tables(t.activities, t.participants + [p]), Ok("Signed up " + email + " for " + name))
  }

  /** Unregister `email` from the activity called `name`: the participant row
      for the pair is looked up with a query that expects at most one row. */
  function Unregister(t: Tables, name: string, email: string): (o: Outcome)
    ensures o.response.Err? ==> o.tables == t
    ensures o.tables.activities == t.activities
  {
    match Lookup(t, name)
    case None => Outcome(t, Err(NotFound))
    case Some(a) =>
      var rows := MatchingRows(t.participants, a.id, email);
      if |rows| == 0 then Outcome(t, Err(NotSignedUp))
      else if |rows| > 1 then Outcome(t, Err(MultipleRowsFound))
      else Outcome(Tables(t.activities, RemoveAt(t.participants, rows[0])), Ok("Unregistered " + email + " from " + name))
  }

  // ---------------------------------------------------------------------------
  // Signup

  /** How a signup is answered, in terms of the registry's view: an unknown
      name, an email already on the roster (whether or not the activity is
      full), a reached capacity, and otherwise success. An absent capacity
      never makes an activity full. */
  lemma SignupOutcomes(t: Tables, name: string, email: string)
    ensures Signup(t, name, email).response == Err(NotFound) <==> name !in Names(t)
    ensures Signup(t, name, email).response == Err(AlreadySignedUp) <==>
              name in Names(t) && email in Roster(t, name)
    ensures Signup(t, name, email).response == Err(Full) <==>
              && name in Names(t) && email !in Roster(t, name)
              && Capacity(t, name).Some? && |Roster(t, name)| >= Capacity(t, name).value
    ensures Signup(t, name, email).response.Ok? ==>
              Signup(t, name, email).response.message == "Signed up " + email + " for " + name
    ensures Signup(t, name, email).response != Err(NotSignedUp)
    ensures Signup(t, name, email).response != Err(MultipleRowsFound)
  {
    if Lookup(t, name).Some? {
      assert Lookup(t, name).value in t.activities;
    }
  }

  /** A successful signup adds exactly that email to exactly that activity; no
      other roster changes. */
  lemma SignupAddsExactlyThatEmail(t: Tables, name: string, email: string)
    requires WellFormed(t)
    requires Signup(t, name, email).response.Ok?
    ensures multiset(Roster(Signup(t, name, email).tables, name)) == multiset(Roster(t, name)) + multiset{email}
    ensures forall n :: n != name ==> Roster(Signup(t, name, email).tables, n) == Roster(t, n)
  {
    var a := Lookup(t, name).value;
    var p := Participant(NewParticipantId(t.participants), email, a.id);
    var t' := Signup(t, name, email).tables;
    assert t'.participants == t.participants + [p];
    assert (t.participants + [p])[..|t.participants|] == t.participants;
    forall n | n != name
      ensures Roster(t', n) == Roster(t, n)
    {
      if Lookup(t, n).Some? {
        var b := Lookup(t, n).value;
        SameIdSameRow(t, a, b);
      }
    }
  }

  /** Unfolds the success branch of `Signup`: one row is appended, the new
      participant with a fresh id for the activity found by name. It states no
      more than that definition; it only saves the invariant proofs below from
      unfolding it. */
  lemma SignupAppendsRow(t: Tables, name: string, email: string)
    requires Signup(t, name, email).response.Ok?
    ensures Lookup(t, name).Some?
    ensures email !in EmailsOf(t.participants, Lookup(t, name).value.id)
    ensures Signup(t, name, email).tables ==
              Tables(t.activities, t.participants + [Participant(NewParticipantId(t.participants), email, Lookup(t, name).value.id)])
  {
  }

  /** A signup keeps the schema's rules: the new row's id is fresh. */
  lemma SignupKeepsWellFormed(t: Tables, name: string, email: string)
    requires WellFormed(t)
    ensures WellFormed(Signup(t, name, email).tables)
  {
    if Signup(t, name, email).response.Ok? {
      SignupAppendsRow(t, name, email);
      var ps := t.participants;
      var p := Participant(NewParticipantId(ps), email, Lookup(t, name).value.id);
      forall i | 0 <= i < |ps| ensures ps[i].id != p.id {
        assert ps[i] in ps;
      }
    }
  }

  /** A signup keeps every participant row pointing at an existing activity. */
  lemma SignupKeepsReferences(t: Tables, name: string, email: string)
    requires ReferencesValid(t)
    ensures ReferencesValid(Signup(t, name, email).tables)
  {
    if Signup(t, name, email).response.Ok? {
      SignupAppendsRow(t, name, email);
      assert Lookup(t, name).value in t.activities;
    }
  }

  /** A signup never registers an email twice for one activity. */
  lemma SignupKeepsNoDuplicates(t: Tables, name: string, email: string)
    requires NoDuplicateSignups(t)
    ensures NoDuplicateSignups(Signup(t, name, email).tables)
  {
    if Signup(t, name, email).response.Ok? {
      SignupAppendsRow(t, name, email);
      var a := Lookup(t, name).value;
      var ps := t.participants;
      var p := Participant(NewParticipantId(ps), email, a.id);
      EmailsOfMembership(ps, a.id, email);
      assert NoDuplicateRows(ps + [p]);
    }
  }

  /** A signup never takes an activity over its capacity. */
  lemma SignupKeepsCapacity(t: Tables, name: string, email: string)
    requires WellFormed(t)
    requires WithinCapacity(t)
    ensures WithinCapacity(Signup(t, name, email).tables)
  {
    if Signup(t, name, email).response.Ok? {
      SignupAppendsRow(t, name, email);
      var a := Lookup(t, name).value;
      var ps := t.participants;
      var p := Participant(NewParticipantId(ps), email, a.id);
      assert (ps + [p])[..|ps|] == ps;
      forall b | b in t.activities && b.maxParticipants.Some?
        ensures |EmailsOf(ps + [p], b.id)| <= b.maxParticipants.value
      {
        SameIdSameRow(t, a, b);
      }
    }
  }

  // ---------------------------------------------------------------------------
  // Unregister

  /** How an unregister is answered: an unknown name, an email not on the
      roster, an email on the roster more than once, and otherwise success. */
  lemma UnregisterOutcomes(t: Tables, name: string, email: string)
    ensures Unregister(t, name, email).response == Err(NotFound) <==> name !in Names(t)
    ensures Unregister(t, name, email).response == Err(NotSignedUp) <==>
              name in Names(t) && email !in Roster(t, name)
    ensures Unregister(t, name, email).response == Err(MultipleRowsFound) <==>
              name in Names(t) && multiset(Roster(t, name))[email] > 1
    ensures Unregister(t, name, email).response.Ok? ==>
              Unregister(t, name, email).response.message == "Unregistered " + email + " from " + name
    ensures Unregister(t, name, email).response != Err(AlreadySignedUp)
    ensures Unregister(t, name, email).response != Err(Full)
  {
    if Lookup(t, name).Some? {
      var a := Lookup(t, name).value;
      assert a in t.activities;
      MatchingRowsCount(t.participants, a.id, email);
    }
  }

  /** When no email is registered twice for one activity, the participant
      query never selects more than one row. */
  lemma UnregisterNeverMultipleRows(t: Tables, name: string, email: string)
    requires NoDuplicateSignups(t)
    ensures Unregister(t, name, email).response != Err(MultipleRowsFound)
  {
    UnregisterOutcomes(t, name, email);
    if Lookup(t, name).Some? {
      NoDuplicatesAtMostOnce(t.participants, Lookup(t, name).value.id, email);
    }
  }

  /** A successful unregister removes exactly that email from exactly that
      activity; afterwards the email is no longer on its roster, and no other
      roster changes. */
  lemma UnregisterRemovesExactlyThatEmail(t: Tables, name: string, email: string)
    requires WellFormed(t)
    requires Unregister(t, name, email).response.Ok?
    ensures multiset(Roster(Unregister(t, name, email).tables, name)) == multiset(Roster(t, name)) - multiset{email}
    ensures email !in Roster(Unregister(t, name, email).tables, name)
    ensures forall n :: n != name ==> Roster(Unregister(t, name, email).tables, n) == Roster(t, n)
  {
    var a := Lookup(t, name).value;
    var ps := t.participants;
    var rows := MatchingRows(ps, a.id, email);
    var k := rows[0];
    var t' := Unregister(t, name, email).tables;
    assert t'.participants == RemoveAt(ps, k);
    MatchingRowsCount(ps, a.id, email);
    RemoveAtEmails(ps, k, a.id);
    assert multiset(Roster(t', name))[email] == 0;
    forall n | n != name
      ensures Roster(t', n) == Roster(t, n)
    {
      if Lookup(t, n).Some? {
        var b := Lookup(t, n).value;
        SameIdSameRow(t, a, b);
        RemoveAtEmails(ps, k, b.id);
      }
    }
  }

  /** Unfolds the success branch of `Unregister`: the single row that pairs
      the email with the activity found by name is deleted. It states no more
      than that definition; it only saves the invariant proofs below from
      unfolding it. */
  lemma UnregisterDeletesRow(t: Tables, name: string, email: string)
    requires Unregister(t, name, email).response.Ok?
    ensures Lookup(t, name).Some?
    ensures |MatchingRows(t.participants, Lookup(t, name).value.id, email)| == 1
    ensures Unregister(t, name, email).tables ==
              Tables(t.activities, RemoveAt(t.participants, MatchingRows(t.participants, Lookup(t, name).value.id, email)[0]))
  {
  }

  /** An unregister keeps the schema's rules: deleting a row keeps the
      remaining ids distinct. */
  lemma UnregisterKeepsWellFormed(t: Tables, name: string, email: string)
    requires WellFormed(t)
    ensures WellFormed(Unregister(t, name, email).tables)
  {
    if Unregister(t, name, email).response.Ok? {
      UnregisterDeletesRow(t, name, email);
      var ps := t.participants;
      var k := MatchingRows(ps, Lookup(t, name).value.id, email)[0];
      var ps' := RemoveAt(ps, k);
      forall i, j | 0 <= i < |ps'| && 0 <= j < |ps'| && ps'[i].id == ps'[j].id
        ensures i == j
      {
      }
    }
  }

  /** An unregister keeps every participant row pointing at an existing activity. */
  lemma UnregisterKeepsReferences(t: Tables, name: string, email: string)
    requires ReferencesValid(t)
    ensures ReferencesValid(Unregister(t, name, email).tables)
  {
    if Unregister(t, name, email).response.Ok? {
      UnregisterDeletesRow(t, name, email);
      var ps := t.participants;
      var k := MatchingRows(ps, Lookup(t, name).value.id, email)[0];
      var ps' := RemoveAt(ps, k);
      forall p | p in ps' ensures p in ps {
        var i :| 0 <= i < |ps'| && ps'[i] == p;
      }
    }
  }

  /** Deleting a row keeps "no email twice in one activity". */
  lemma UnregisterKeepsNoDuplicates(t: Tables, name: string, email: string)
    requires NoDuplicateSignups(t)
    ensures NoDuplicateSignups(Unregister(t, name, email).tables)
  {
    if Unregister(t, name, email).response.Ok? {
      UnregisterDeletesRow(t, name, email);
      var ps := t.participants;
      var k := MatchingRows(ps, Lookup(t, name).value.id, email)[0];
      var ps' := RemoveAt(ps, k);
      forall i, j | 0 <= i < j < |ps'|
        ensures ps'[i].activityId != ps'[j].activityId || ps'[i].email != ps'[j].email
      {
      }
    }
  }

  /** Deleting a row never takes an activity over its capacity. */
  lemma UnregisterKeepsCapacity(t: Tables, name: string, email: string)
    requires WithinCapacity(t)
    ensures WithinCapacity(Unregister(t, name, email).tables)
  {
    if Unregister(t, name, email).response.Ok? {
      UnregisterDeletesRow(t, name, email);
      var ps := t.participants;
      var k := MatchingRows(ps, Lookup(t, name).value.id, email)[0];
      var ps' := RemoveAt(ps, k);
      forall b | b in t.activities && b.maxParticipants.Some?
        ensures |EmailsOf(ps', b.id)| <= b.maxParticipants.value
      {
        RemoveAtEmails(ps, k, b.id);
        assert |multiset(EmailsOf(ps', b.id))| <= |multiset(EmailsOf(ps, b.id))|;
      }
    }
  }

  // ---------------------------------------------------------------------------
  // The endpoints, acting on the store in place

  /** GET /activities: every activity by name, with its fields and the emails
      of its participants. The order of those emails is not promised. */
  method GetActivities(store: Store) returns (out: map<string, ActivityView>)
    requires store.Valid()
    ensures out.Keys == Names(store.State())
    ensures forall i :: 0 <= i < |store.activities| ==>
              var a := store.activities[i];
              && a.name in out
              && out[a.name].description == a.description
              && out[a.name].schedule == a.schedule
              && out[a.name].maxParticipants == a.maxParticipants
              && multiset(out[a.name].participants) == multiset(EmailsOf(store.participants, a.id))
  {
    var results := store.activities;
    out := map[];
    var i := 0;
    while i < |results|
      invariant 0 <= i <= |results|
      invariant out.Keys == set k | 0 <= k < i :: results[k].name
      invariant forall k :: 0 <= k < i ==>
                  out[results[k].name] ==
                    ActivityView(results[k].description, results[k].schedule, results[k].maxParticipants,
                                 EmailsOf(store.participants, results[k].id))
    {
      var a := results[i];
      var participants := EmailsOf(store.participants, a.id);
      out := out[a.name := ActivityView(a.description, a.schedule, a.maxParticipants, participants)];
      i := i + 1;
    }
    assert Names(store.State()) == set k | 0 <= k < |results| :: results[k].name by {
      forall n | n in Names(store.State()) ensures n in set k | 0 <= k < |results| :: results[k].name {
        var a :| a in results && a.name == n;
        var k :| 0 <= k < |results| && results[k] == a;
      }
    }
  }

  /** POST /activities/{name}/signup. */
  method SignupForActivity(store: Store, name: string, email: string) returns (r: Response)
    requires store.Valid()
    modifies store
    ensures store.Valid()
    ensures Outcome(store.State(), r) == Signup(old(store.State()), name, email)
    ensures old(ReferencesValid(store.State())) ==> ReferencesValid(store.State())
    ensures old(NoDuplicateSignups(store.State())) ==> NoDuplicateSignups(store.State())
    ensures old(WithinCapacity(store.State())) ==> WithinCapacity(store.State())
  {
    SignupKeepsWellFormed(store.State(), name, email);
    if ReferencesValid(store.State()) { SignupKeepsReferences(store.State(), name, email); }
    if NoDuplicateSignups(store.State()) { SignupKeepsNoDuplicates(store.State(), name, email); }
    if WithinCapacity(store.State()) { SignupKeepsCapacity(store.State(), name, email); }
    var activity := FindByName(store.activities, name);
    if activity.None? {
      return Err(NotFound);
    }
    var a := activity.value;
    var current := EmailsOf(store.participants, a.id);
    var currentCount := |current|;
    if email in current {
      return Err(AlreadySignedUp);
    }
    if a.maxParticipants.Some? && currentCount >= a.maxParticipants.value {
      return Err(Full);
    }
    var participant := Participant(NewParticipantId(store.participants), email, a.id);
    store.participants := store.participants + [participant];
    r := Ok("Signed up " + email + " for " + name);
  }

  /** DELETE /activities/{name}/unregister. */
  method UnregisterFromActivity(store: Store, name: string, email: string) returns (r: Response)
    requires store.Valid()
    modifies store
    ensures store.Valid()
    ensures Outcome(store.State(), r) == Unregister(old(store.State()), name, email)
    ensures old(ReferencesValid(store.State())) ==> ReferencesValid(store.State())
    ensures old(NoDuplicateSignups(store.State())) ==> NoDuplicateSignups(store.State())
    ensures old(WithinCapacity(store.State())) ==> WithinCapacity(store.State())
  {
    UnregisterKeepsWellFormed(store.State(), name, email);
    if ReferencesValid(store.State()) { UnregisterKeepsReferences(store.State(), name, email); }
    if NoDuplicateSignups(store.State()) { UnregisterKeepsNoDuplicates(store.State(), name, email); }
    if WithinCapacity(store.State()) { UnregisterKeepsCapacity(store.State(), name, email); }
    var activity := FindByName(store.activities, name);
    if activity.None? {
      return Err(NotFound);
    }
    var a := activity.value;
    var rows := MatchingRows(store.participants, a.id, email);
    if |rows| == 0 {
      return Err(NotSignedUp);
    }
    if |rows| > 1 {
      return Err(MultipleRowsFound);
    }
    store.participants := RemoveAt(store.participants, rows[0]);
    r := Ok("Unregistered " + email + " from " + name);
  }
}
