/**
 * The activity catalog and its signup rule: an in-memory table from
 * activity name to activity record, read whole by `GET /activities` and
 * extended by `POST /activities/{name}/signup?email=...`, which rejects an
 * unknown activity (404) and an email already on the list (400) and
 * otherwise appends the email to that activity's participants.
 */
module Activities {

  /** One catalog entry. */
  datatype Activity = Activity(
    description: string,
    schedule: string,
    maxParticipants: int,
    participants: seq<string>)

  /** The two ways a signup request is refused. */
  datatype SignupError = ActivityNotFound | AlreadySignedUp

  /** What the signup endpoint answers. */
  datatype Response = Signed(message: string) | Rejected(error: SignupError)

  /** True when `part` occurs contiguously in `text`. */
  predicate HasSubstring(text: string, part: string)
  {
    exists i :: 0 <= i <= |text| && part <= text[i..]
  }

  /** The HTTP status the endpoint answers with. */
  function StatusCode(r: Response): (code: nat)
    ensures code == 200 <==> r.Signed?
    ensures code == 404 <==> r == Rejected(ActivityNotFound)
    ensures code == 400 <==> r == Rejected(AlreadySignedUp)
  {
    match r
    case Signed(_) => 200
    case Rejected(ActivityNotFound) => 404
    case Rejected(AlreadySignedUp) => 400
  }

  /** The success message: it names the email and says it was signed up. */
  function SuccessMessage(name: string, email: string): (msg: string)
    ensures HasSubstring(msg, "Signed up")
    ensures HasSubstring(msg, email)
  {
    var msg := "Signed up " + email + " for " + name;
    assert "Signed up" <= msg[0..];
    assert email <= msg[10..];
    msg
  }

  /** The `detail` text of a refusal. */
  function Detail(e: SignupError): (d: string)
    ensures e == ActivityNotFound ==> HasSubstring(d, "not found")
    ensures e == AlreadySignedUp ==> HasSubstring(d, "already signed up")
  {
    match e
    case ActivityNotFound =>
      var d := "Activity not found";
      assert "not found" <= d[9..];
      d
    case AlreadySignedUp =>
      var d := "Student is already signed up";
      assert "already signed up" <= d[11..];
      d
  }

  predicate NoDuplicates(ps: seq<string>)
  {
    forall i, j :: 0 <= i < j < |ps| ==> ps[i] != ps[j]
  }

  /** The catalog invariant signup keeps: no email is listed twice in one activity. */
  predicate WellFormed(m: map<string, Activity>)
  {
    forall name :: name in m ==> NoDuplicates(m[name].participants)
  }

  /** The "spots left" figure the page shows for an activity. */
  function SpotsLeft(a: Activity): (n: int)
    ensures n + |a.participants| == a.maxParticipants
    ensures n < 0 <==> |a.participants| > a.maxParticipants
  {
    a.maxParticipants - |a.participants|
  }

  /** The signup rule on the table: the answer and the table afterwards. */
  function SignupOutcome(m: map<string, Activity>, name: string, email: string)
    : (result: (Response, map<string, Activity>))
    ensures StatusCode(result.0) == 404 <==> name !in m
    ensures StatusCode(result.0) == 400 <==> name in m && email in m[name].participants
    ensures StatusCode(result.0) == 200 <==> name in m && email !in m[name].participants
    ensures result.0.Rejected? ==> result.1 == m
    ensures result.0.Signed? ==>
      && HasSubstring(result.0.message, "Signed up")
      && HasSubstring(result.0.message, email)
      && name in result.1
      && result.1[name].participants == m[name].participants + [email]
      && result.1[name].description == m[name].description
      && result.1[name].schedule == m[name].schedule
      && result.1[name].maxParticipants == m[name].maxParticipants
    ensures result.1.Keys == m.Keys
    ensures forall other :: other in m && other != name ==> result.1[other] == m[other]
  {
    if name !in m then (Rejected(ActivityNotFound), m)
    else if email in m[name].participants then (Rejected(AlreadySignedUp), m)
    else
      var a := m[name];
      (Signed(SuccessMessage(name, email)), m[name := a.(participants := a.participants + [email])])
  }

  /** Several signups to one activity, one after the other. */
  function SignupSeries(m: map<string, Activity>, name: string, emails: seq<string>)
    : (result: (seq<Response>, map<string, Activity>))
    ensures |result.0| == |emails|
    decreases |emails|
  {
    if emails == [] then ([], m)
    else
      var (r, m') := SignupOutcome(m, name, emails[0]);
      var (rs, m'') := SignupSeries(m', name, emails[1..]);
      ([r] + rs, m'')
  }

  // ---------------------------------------------------------------------
  // Properties of the rule.
  // ---------------------------------------------------------------------

  /** Signup never lists an email twice in one activity. */
  lemma SignupKeepsWellFormed(m: map<string, Activity>, name: string, email: string)
    requires WellFormed(m)
    ensures WellFormed(SignupOutcome(m, name, email).1)
  {
    var (r, m') := SignupOutcome(m, name, email);
    if r.Signed? {
      var ps := m[name].participants;
      assert m'[name].participants == ps + [email];
      assert NoDuplicates(ps + [email]) by {
        forall i, j | 0 <= i < j < |ps| + 1
          ensures (ps + [email])[i] != (ps + [email])[j]
        {
          if j == |ps| {
            assert (ps + [email])[i] == ps[i];
          }
        }
      }
    }
  }

  /** Signing up the same email twice: the second request is refused with 400
      and leaves the table as the first one left it. */
  lemma SignupTwiceIsRejected(m: map<string, Activity>, name: string, email: string)
    requires name in m
    ensures var m' := SignupOutcome(m, name, email).1;
      SignupOutcome(m', name, email) == (Rejected(AlreadySignedUp), m')
  {
    var m' := SignupOutcome(m, name, email).1;
    assert email in m'[name].participants;
  }

  lemma NoDuplicatesTail(emails: seq<string>)
    requires NoDuplicates(emails) && emails != []
    ensures NoDuplicates(emails[1..])
    ensures forall e :: e in emails[1..] ==> e in emails && e != emails[0]
  {
    var tail := emails[1..];
    forall i, j | 0 <= i < j < |tail| ensures tail[i] != tail[j] {
      assert tail[i] == emails[i + 1] && tail[j] == emails[j + 1];
    }
    forall e | e in tail ensures e in emails && e != emails[0] {
      var k :| 0 <= k < |tail| && tail[k] == e;
      assert emails[k + 1] == e;
    }
  }

  /** An accepted signup replaces exactly one entry of the table. */
  lemma SignupAccepted(m: map<string, Activity>, name: string, email: string)
    requires name in m && email !in m[name].participants
    ensures SignupOutcome(m, name, email)
      == (Signed(SuccessMessage(name, email)),
          m[name := m[name].(participants := m[name].participants + [email])])
  {
  }

  /** The first of several signups, when it is accepted. */
  lemma SignupSeriesStep(m: map<string, Activity>, name: string, emails: seq<string>)
    requires emails != [] && name in m && emails[0] !in m[name].participants
    ensures var m1 := m[name := m[name].(participants := m[name].participants + [emails[0]])];
      var (rs, m2) := SignupSeries(m1, name, emails[1..]);
      SignupSeries(m, name, emails) == ([Signed(SuccessMessage(name, emails[0]))] + rs, m2)
  {
    SignupAccepted(m, name, emails[0]);
  }

  /** Distinct new emails signed up one after another are all accepted and
      accumulate, in order, on that activity and nowhere else. */
  lemma {:induction false} SignupSeriesAccumulates(m: map<string, Activity>, name: string, emails: seq<string>)
    requires name in m
    requires NoDuplicates(emails)
    requires forall e :: e in emails ==> e !in m[name].participants
    ensures var (rs, m') := SignupSeries(m, name, emails);
      && (forall i :: 0 <= i < |rs| ==> rs[i].Signed?)
      && m' == m[name := m[name].(participants := m[name].participants + emails)]
    decreases |emails|
  {
    var a := m[name];
    if emails == [] {
      assert a.participants + emails == a.participants;
      assert m[name := a] == m;
    } else {
      var e, tail := emails[0], emails[1..];
      assert e in emails;
      var a1 := a.(participants := a.participants + [e]);
      var m1 := m[name := a1];
      SignupSeriesStep(m, name, emails);
      assert SignupSeries(m, name, emails).1 == SignupSeries(m1, name, tail).1;
      NoDuplicatesTail(emails);
      assert forall x :: x in tail ==> x !in a1.participants;
      SignupSeriesAccumulates(m1, name, tail);
      assert SignupSeries(m1, name, tail).1 == m1[name := a1.(participants := a1.participants + tail)];
      assert a1.participants + tail == a.participants + emails by {
        assert emails == [e] + tail;
      }
      MapUpdateTwice(m, name, a1, a.(participants := a.participants + emails));
    }
  }

  lemma MapUpdateTwice(m: map<string, Activity>, k: string, x: Activity, y: Activity)
    ensures m[k := x][k := y] == m[k := y]
  {
  }

  /** A successful signup takes one spot, and nothing stops the count from
      going below zero: capacity is shown but never enforced. */
  lemma SignupTakesASpot(m: map<string, Activity>, name: string, email: string)
    requires name in m && email !in m[name].participants
    ensures var m' := SignupOutcome(m, name, email).1;
      SpotsLeft(m'[name]) == SpotsLeft(m[name]) - 1
  {
  }

  /** An activity with no spot left still accepts a new email. */
  lemma CapacityNotEnforced(m: map<string, Activity>, name: string, email: string)
    requires name in m && SpotsLeft(m[name]) <= 0 && email !in m[name].participants
    ensures var (r, m') := SignupOutcome(m, name, email);
      StatusCode(r) == 200 && SpotsLeft(m'[name]) < 0
  {
    SignupTakesASpot(m, name, email);
  }

  // ---------------------------------------------------------------------
  // The initial catalog, as far as the endpoint's tests describe it, and the
  // tests' scenarios as lemmas over any catalog that fits that description.
  // ---------------------------------------------------------------------

  const Chess: string := "Chess Club"
  const Soccer: string := "Soccer Club"
  const Art: string := "Art Club"
  const Basketball: string := "Basketball Team"
  const Drama: string := "Drama Club"
  const MathClub: string := "Math Club"

  /** What the tests' assertions force on the catalog each of them starts
      from, and nothing more.  The Soccer Club test never checks the status
      of its POST, so it also passes when that student is already listed. */
  predicate InitialCatalog(m: map<string, Activity>)
  {
    && Chess in m
    && |m[Chess].participants| == 2
    && "michael@mergington.edu" in m[Chess].participants
    && "daniel@mergington.edu" in m[Chess].participants
    && Soccer in m
    && (m[Soccer].participants == [] || m[Soccer].participants == ["newstudent@mergington.edu"])
    && Art in m && m[Art].participants == []
    && Basketball in m && "student@mergington.edu" !in m[Basketball].participants
    && Drama in m && "test.student@mergington.edu" !in m[Drama].participants
    && MathClub in m && m[MathClub].maxParticipants == 10
    && "Nonexistent Activity" !in m
  }

  /** Chess Club starts with exactly the two asserted students, in some order. */
  lemma ChessClubStartsWithTwo(m: map<string, Activity>)
    requires InitialCatalog(m)
    ensures var ps := m[Chess].participants;
      ps == ["michael@mergington.edu", "daniel@mergington.edu"]
      || ps == ["daniel@mergington.edu", "michael@mergington.edu"]
  {
    var ps := m[Chess].participants;
    var i :| 0 <= i < 2 && ps[i] == "michael@mergington.edu";
    var j :| 0 <= j < 2 && ps[j] == "daniel@mergington.edu";
    assert i != j;
  }

  /** A new student is signed up with a message naming them. */
  lemma NewStudentIsSignedUp(m: map<string, Activity>)
    requires InitialCatalog(m)
    ensures var r := SignupOutcome(m, Basketball, "student@mergington.edu").0;
      && StatusCode(r) == 200
      && HasSubstring(r.message, "Signed up")
      && HasSubstring(r.message, "student@mergington.edu")
  {
  }

  /** After signing up to Soccer Club it lists exactly that email. */
  lemma SignedUpStudentAppears(m: map<string, Activity>)
    requires InitialCatalog(m)
    ensures var m' := SignupOutcome(m, Soccer, "newstudent@mergington.edu").1;
      && "newstudent@mergington.edu" in m'[Soccer].participants
      && |m'[Soccer].participants| == 1
  {
  }

  /** A student already in Chess Club is refused with 400, "already signed up". */
  lemma RegisteredStudentIsRejected(m: map<string, Activity>)
    requires InitialCatalog(m)
    ensures var (r, m') := SignupOutcome(m, Chess, "michael@mergington.edu");
      && StatusCode(r) == 400
      && HasSubstring(Detail(r.error), "already signed up")
      && m' == m
  {
  }

  /** An unknown activity is refused with 404, "not found". */
  lemma UnknownActivityIsRejected(m: map<string, Activity>)
    requires InitialCatalog(m)
    ensures var (r, m') := SignupOutcome(m, "Nonexistent Activity", "student@mergington.edu");
      && StatusCode(r) == 404
      && HasSubstring(Detail(r.error), "not found")
      && m' == m
  {
  }

  /** Three new students signed up to Art Club are all accepted and listed,
      in the order they signed up. */
  lemma ThreeStudentsAccumulate(m: map<string, Activity>)
    requires InitialCatalog(m)
    ensures var emails := ["student1@mergington.edu", "student2@mergington.edu", "student3@mergington.edu"];
      && (forall i :: 0 <= i < 3 ==> StatusCode(SignupSeries(m, Art, emails).0[i]) == 200)
      && SignupSeries(m, Art, emails).1[Art].participants == emails
  {
    var emails := ["student1@mergington.edu", "student2@mergington.edu", "student3@mergington.edu"];
    assert NoDuplicates(emails);
    assert m[Art].participants + emails == emails;
    SignupSeriesAccumulates(m, Art, emails);
  }

  /** The empty email gets no special treatment: after a first signup to
      Drama Club it is accepted or refused as a duplicate, like any email. */
  lemma EmptyEmailIsOrdinary(m: map<string, Activity>)
    requires InitialCatalog(m)
    ensures var (r1, m1) := SignupOutcome(m, Drama, "test.student@mergington.edu");
      var (r2, m2) := SignupOutcome(m1, Drama, "");
      && StatusCode(r1) == 200
      && (StatusCode(r2) == 200 <==> "" !in m[Drama].participants)
      && (StatusCode(r2) == 400 <==> "" in m[Drama].participants)
  {
    var m1 := SignupOutcome(m, Drama, "test.student@mergington.edu").1;
    assert m1[Drama].participants == m[Drama].participants + ["test.student@mergington.edu"];
    assert "" in m1[Drama].participants <==> "" in m[Drama].participants;
  }

  /** Math Club's capacity of 10 is a plain field: no signup changes it. */
  lemma MathClubCapacityUnchanged(m: map<string, Activity>, name: string, email: string)
    requires InitialCatalog(m)
    ensures SignupOutcome(m, name, email).1[MathClub].maxParticipants == 10
  {
  }

  // ---------------------------------------------------------------------
  // The server's shared table.
  // ---------------------------------------------------------------------

  /** The one dictionary the handlers share; signup updates it in place. */
  class Catalog {
    var activities: map<string, Activity>

    ghost predicate Valid()
      reads this
    {
      WellFormed(activities)
    }

    constructor (initial: map<string, Activity>)
      requires WellFormed(initial)
      ensures Valid() && activities == initial
    {
      activities := initial;
    }

    /** `GET /activities`: the whole table. */
    method GetActivities() returns (m: map<string, Activity>)
      ensures m == activities
    {
      m := activities;
    }

    /** `POST /activities/{name}/signup?email=...`. */
    method Signup(name: string, email: string) returns (r: Response)
      requires Valid()
      modifies this
      ensures Valid()
      ensures (r, activities) == SignupOutcome(old(activities), name, email)
    {
      SignupKeepsWellFormed(activities, name, email);
      if name !in activities {
        return Rejected(ActivityNotFound);
      }
      var activity := activities[name];
      if email in activity.participants {
        return Rejected(AlreadySignedUp);
      }
      activities := activities[name := activity.(participants := activity.participants + [email])];
      r := Signed(SuccessMessage(name, email));
    }
  }

  /** The multiple-signup test run against a fresh server: three POSTs to Art
      Club, then a GET. */
  method SignupThreeStudents(initial: map<string, Activity>) returns (codes: seq<nat>, art: seq<string>)
    requires InitialCatalog(initial) && WellFormed(initial)
    ensures codes == [200, 200, 200]
    ensures art == ["student1@mergington.edu", "student2@mergington.edu", "student3@mergington.edu"]
  {
    var catalog := new Catalog(initial);
    var r1 := catalog.Signup(Art, "student1@mergington.edu");
    var r2 := catalog.Signup(Art, "student2@mergington.edu");
    var r3 := catalog.Signup(Art, "student3@mergington.edu");
    codes := [StatusCode(r1), StatusCode(r2), StatusCode(r3)];
    var listing := catalog.GetActivities();
    art := listing[Art].participants;
  }
}
