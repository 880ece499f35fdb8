/** Properties of sequences of requests: what several signups and unregisters
    in a row do to the registry. */
module Scenarios {
  import opened Models
  import opened Database
  import opened Api

  ghost predicate Distinct(emails: seq<string>)
  {
    forall i, j :: 0 <= i < j < |emails| ==> emails[i] != emails[j]
  }

  /** Dropping the last of distinct emails leaves distinct emails, none of
      them equal to the dropped one. */
  lemma DistinctSnoc(emails: seq<string>)
    requires emails != [] && Distinct(emails)
    ensures Distinct(emails[..|emails| - 1])
    ensures emails[|emails| - 1] !in emails[..|emails| - 1]
  {
  }

  /** The store after signing up each of `emails` in turn, and the answers. */
  datatype Run = Run(tables: Tables, responses: seq<Response>)

  function SignupEach(t: Tables, name: string, emails: seq<string>): (r: Run)
    ensures |r.responses| == |emails|
    ensures r.tables.activities == t.activities
  {
    if emails == [] then Run(t, [])
    else
      var before := SignupEach(t, name, emails[..|emails| - 1]);
      var o := Signup(before.tables, name, emails[|emails| - 1]);
      Run(o.tables, before.responses + [o.response])
  }

  /** Running one more signup after a run of signups. */
  lemma SignupEachSnoc(t: Tables, name: string, emails: seq<string>, e: string)
    ensures SignupEach(t, name, emails + [e]) ==
              var before := SignupEach(t, name, emails);
              var o := Signup(before.tables, name, e);
              Run(o.tables, before.responses + [o.response])
  {
    assert (emails + [e])[..|emails|] == emails;
  }

  /** After a successful signup, the new row is the only row pairing that
      email with that activity. */
  lemma SignupRowIsOnlyMatch(t: Tables, name: string, email: string)
    requires Signup(t, name, email).response.Ok?
    ensures Lookup(t, name).Some?
    ensures MatchingRows(Signup(t, name, email).tables.participants, Lookup(t, name).value.id, email)
              == [|t.participants|]
  {
    SignupAppendsRow(t, name, email);
    var a := Lookup(t, name).value;
    var ps := t.participants;
    var p := Participant(NewParticipantId(ps), email, a.id);
    MatchingRowsCount(ps, a.id, email);
    assert MatchingRows(ps, a.id, email) == [];
    assert (ps + [p])[..|ps|] == ps;
    assert (ps + [p])[|ps|] == p;
  }

  /** Signing an email up and then unregistering it gives back exactly the
      store there was before. */
  lemma SignupThenUnregisterRestores(t: Tables, name: string, email: string)
    requires Signup(t, name, email).response.Ok?
    ensures Unregister(Signup(t, name, email).tables, name, email)
              == Outcome(t, Ok("Unregistered " + email + " from " + name))
  {
    SignupAppendsRow(t, name, email);
    SignupRowIsOnlyMatch(t, name, email);
    var a := Lookup(t, name).value;
    var ps := t.participants;
    var t' := Signup(t, name, email).tables;
    assert Lookup(t', name) == Some(a);
    assert RemoveAt(t'.participants, |ps|) == ps;
  }

  /** After signing up and unregistering, the same email can sign up again,
      with the same answer as the first time. */
  lemma SignupAgainAfterUnregister(t: Tables, name: string, email: string)
    requires Signup(t, name, email).response.Ok?
    ensures Signup(Unregister(Signup(t, name, email).tables, name, email).tables, name, email)
              == Signup(t, name, email)
  {
    SignupThenUnregisterRestores(t, name, email);
  }

  /** Signing up an email a second time is refused and changes nothing, so the
      participant count stays where the first signup left it. */
  lemma SecondSignupRefused(t: Tables, name: string, email: string)
    requires WellFormed(t)
    requires Signup(t, name, email).response.Ok?
    ensures Signup(Signup(t, name, email).tables, name, email)
              == Outcome(Signup(t, name, email).tables, Err(AlreadySignedUp))
    ensures |Roster(Signup(t, name, email).tables, name)| == |Roster(t, name)| + 1
  {
    var t' := Signup(t, name, email).tables;
    SignupAddsExactlyThatEmail(t, name, email);
    assert email in multiset(Roster(t', name));
    assert |multiset(Roster(t', name))| == |multiset(Roster(t, name))| + 1;
    SignupOutcomes(t', name, email);
  }

  /** One more signup of a new email to an activity below its capacity
      succeeds and extends the roster by that email. */
  lemma NextSignupSucceeds(t: Tables, name: string, done: seq<string>, e: string)
    requires WellFormed(t)
    requires Lookup(t, name).Some?
    requires multiset(Roster(t, name)) == multiset(done)
    requires e !in done
    requires Capacity(t, name).Some? ==> |done| < Capacity(t, name).value
    ensures Signup(t, name, e).response.Ok?
    ensures WellFormed(Signup(t, name, e).tables)
    ensures multiset(Roster(Signup(t, name, e).tables, name)) == multiset(done + [e])
    ensures Capacity(Signup(t, name, e).tables, name) == Capacity(t, name)
  {
    assert e !in multiset(done);
    assert |Roster(t, name)| == |done| by {
      assert |multiset(Roster(t, name))| == |multiset(done)|;
    }
    SignupOutcomes(t, name, e);
    SignupKeepsWellFormed(t, name, e);
    SignupAddsExactlyThatEmail(t, name, e);
    assert multiset(done + [e]) == multiset(done) + multiset{e};
  }

  /** A run of signups keeps the schema's rules. */
  lemma {:induction false} SignupEachKeepsWellFormed(t: Tables, name: string, emails: seq<string>)
    requires WellFormed(t)
    ensures WellFormed(SignupEach(t, name, emails).tables)
  {
    if emails != [] {
      var init := emails[..|emails| - 1];
      SignupEachKeepsWellFormed(t, name, init);
      SignupKeepsWellFormed(SignupEach(t, name, init).tables, name, emails[|emails| - 1]);
    }
  }

  /** One step of the induction below: a run that has succeeded so far on
      distinct emails stays successful when one more new email signs up below
      capacity. */
  lemma SignupsStep(t: Tables, name: string, init: seq<string>, e: string)
    requires WellFormed(t)
    requires Lookup(t, name).Some?
    requires Capacity(t, name).Some? ==> |init| < Capacity(t, name).value
    requires e !in init
    requires forall i :: 0 <= i < |init| ==> SignupEach(t, name, init).responses[i].Ok?
    requires multiset(Roster(SignupEach(t, name, init).tables, name)) == multiset(init)
    ensures forall i :: 0 <= i < |init| + 1 ==> SignupEach(t, name, init + [e]).responses[i].Ok?
    ensures multiset(Roster(SignupEach(t, name, init + [e]).tables, name)) == multiset(init + [e])
  {
    SignupEachKeepsWellFormed(t, name, init);
    var before := SignupEach(t, name, init);
    NextSignupSucceeds(before.tables, name, init, e);
    SignupEachSnoc(t, name, init, e);
  }

  /** Signups of distinct emails to an activity that starts empty all succeed
      while its capacity allows, and its roster then holds exactly those
      emails. */
  lemma {:induction false} SignupsWithinCapacitySucceed(t: Tables, name: string, emails: seq<string>)
    requires WellFormed(t)
    requires Lookup(t, name).Some?
    requires Roster(t, name) == []
    requires Capacity(t, name).Some? ==> |emails| <= Capacity(t, name).value
    requires Distinct(emails)
    ensures forall i :: 0 <= i < |emails| ==> SignupEach(t, name, emails).responses[i].Ok?
    ensures multiset(Roster(SignupEach(t, name, emails).tables, name)) == multiset(emails)
  {
    if emails != [] {
      var init := emails[..|emails| - 1];
      var e := emails[|emails| - 1];
      DistinctSnoc(emails);
      SignupsWithinCapacitySucceed(t, name, init);
      SignupsStep(t, name, init, e);
      assert init + [e] == emails;
    }
  }

  /** With capacity N and an empty roster, N signups of distinct emails
      succeed and one more distinct email is answered "full". */
  lemma CapacityReachedExactly(t: Tables, name: string, emails: seq<string>, extra: string)
    requires WellFormed(t)
    requires Roster(t, name) == []
    requires Capacity(t, name) == Some(|emails|)
    requires Distinct(emails)
    requires extra !in emails
    ensures forall i :: 0 <= i < |emails| ==> SignupEach(t, name, emails).responses[i].Ok?
    ensures Signup(SignupEach(t, name, emails).tables, name, extra).response == Err(Full)
  {
    SignupsWithinCapacitySucceed(t, name, emails);
    SignupEachKeepsWellFormed(t, name, emails);
    var after := SignupEach(t, name, emails).tables;
    assert |Roster(after, name)| == |emails| by {
      assert |multiset(Roster(after, name))| == |multiset(emails)|;
    }
    assert extra !in multiset(Roster(after, name));
    assert Capacity(after, name) == Capacity(t, name);
    SignupOutcomes(after, name, extra);
  }

  /** In a freshly seeded store, twelve distinct students fill the Chess Club
      and a thirteenth is told it is full. */
  lemma SeededChessClubFillsAtTwelve(emails: seq<string>, extra: string)
    requires |emails| == 12
    requires Distinct(emails)
    requires extra !in emails
    ensures forall i :: 0 <= i < 12 ==>
              SignupEach(SeedIfEmpty(Tables([], [])), "Chess Club", emails).responses[i].Ok?
    ensures Signup(SignupEach(SeedIfEmpty(Tables([], [])), "Chess Club", emails).tables, "Chess Club", extra).response
              == Err(Full)
  {
    var t := Tables([], []);
    SeedKeepsWellFormed(t);
    SeededRostersEmpty(t);
    SeedCapacities(t);
    var s := SeedIfEmpty(t);
    var a := Lookup(s, "Chess Club").value;
    assert a in s.activities;
    CapacityReachedExactly(s, "Chess Club", emails, extra);
  }

  /** The thirteenth Chess Club signup is answered with status 400 and a
      detail saying the activity is full. */
  lemma SeededChessClubThirteenthAnswer(emails: seq<string>, extra: string)
    requires |emails| == 12
    requires Distinct(emails)
    requires extra !in emails
    ensures var r := Signup(SignupEach(SeedIfEmpty(Tables([], [])), "Chess Club", emails).tables, "Chess Club", extra).response;
            r.Err? && StatusCode(r.failure) == 400 && Contains(Detail(r.failure), "full")
  {
    SeededChessClubFillsAtTwelve(emails, extra);
    assert StatusCode(Full) == 400 && Contains(Detail(Full), "full");
  }

  /** The same email may be registered for two different activities at once. */
  lemma SameEmailSeveralActivities(t: Tables, first: string, second: string, email: string)
    requires WellFormed(t)
    requires first != second
    requires Signup(t, first, email).response.Ok?
    requires Signup(t, second, email).response.Ok?
    ensures Signup(Signup(t, first, email).tables, second, email).response.Ok?
    ensures email in Roster(Signup(Signup(t, first, email).tables, second, email).tables, first)
    ensures email in Roster(Signup(Signup(t, first, email).tables, second, email).tables, second)
  {
    var t1 := Signup(t, first, email).tables;
    SignupAddsExactlyThatEmail(t, first, email);
    SignupKeepsWellFormed(t, first, email);
    assert email in multiset(Roster(t1, first));
    SignupOutcomes(t, second, email);
    assert Capacity(t1, second) == Capacity(t, second);
    assert Names(t1) == Names(t);
    SignupOutcomes(t1, second, email);
    SignupAddsExactlyThatEmail(t1, second, email);
    var t2 := Signup(t1, second, email).tables;
    assert email in multiset(Roster(t2, second));
  }
}
