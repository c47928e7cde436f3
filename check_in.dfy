/** The student check-in page: a student submits name, matric number and
    course, which is recorded as present for today unless that matric is
    already recorded for that course today. The page also holds the staff
    sign-in against a fixed list of users. */
module CheckIn {
  import opened Text
  import opened Records

  datatype CheckInError = MissingField | AlreadyRecorded

  /** A staff account. */
  datatype User = User(name: string, password: string, role: string)

  /** The accounts the page knows. */
  const Users: seq<User> := [
    User("Abdulrahmon", "classrep", "classrep"),
    User("Abdulkareem", "lecturer", "lecturer")
  ]

  /** The name matches ignoring letter case; the password matches exactly. */
  predicate Matches(u: User, name: string, password: string) {
    ToLower(u.name) == ToLower(name) && u.password == password
  }

  /** The first user matching the credentials, if there is one. */
  function FindUser(users: seq<User>, name: string, password: string): (r: Option<User>)
    ensures r.Some? <==> exists i :: 0 <= i < |users| && Matches(users[i], name, password)
    ensures r.Some? ==>
              exists i :: 0 <= i < |users| && users[i] == r.value && Matches(users[i], name, password)
                          && forall j :: 0 <= j < i ==> !Matches(users[j], name, password)
  {
    if users == [] then None
    else if Matches(users[0], name, password) then Some(users[0])
    else
      var r := FindUser(users[1..], name, password);
      assert forall i :: 1 <= i < |users| ==> users[i] == users[1..][i - 1];
      r
  }

  /** The typed name's letter case never matters: looking it up as typed
      finds the same user as looking it up lower-cased. */
  lemma {:induction false} FindUserIgnoresNameCase(users: seq<User>, name: string, password: string)
    ensures FindUser(users, name, password) == FindUser(users, ToLower(name), password)
  {
    ToLowerIdempotent(name);
    if users != [] {
      FindUserIgnoresNameCase(users[1..], name, password);
    }
  }

  /** The password is compared exactly: the lecturer's password typed with
      a capital letter matches nobody, whatever the name. */
  lemma SignInPasswordIsCaseSensitive(name: string)
    ensures FindUser(Users, name, "Lecturer") == None
  {
    assert "Lecturer" != "classrep" by { assert "Lecturer"[0] != "classrep"[0]; }
    assert "Lecturer" != "lecturer" by { assert "Lecturer"[0] != "lecturer"[0]; }
    assert !Matches(Users[0], name, "Lecturer");
    assert !Matches(Users[1], name, "Lecturer");
  }

  /** The store after a self-check-in, or why it is refused. The name,
      matric and course are the already-trimmed form values. */
  function SelfCheckIn(s: Store, name: string, matric: string, course: string, date: string)
    : (r: Result<Store, CheckInError>)
    ensures (name == "" || matric == "" || course == "") ==> r == Failure(MissingField)
    ensures name != "" && matric != "" && course != "" && HasMatricOn(Get(s, course), matric, date)
            ==> r == Failure(AlreadyRecorded)
    ensures r.Success? <==>
              name != "" && matric != "" && course != "" && !HasMatricOn(Get(s, course), matric, date)
  {
    if name == "" || matric == "" || course == "" then Failure(MissingField)
    else if HasMatricOn(Get(s, course), matric, date) then Failure(AlreadyRecorded)
    else Success(s[course := Get(s, course) + [Entry(name, matric, date, Present)]])
  }

  /** An accepted check-in appends exactly one "Present" entry dated today
      to the end of the course's list, creating the course if it was
      missing, and leaves every other course as it was. */
  lemma SelfCheckInAppends(s: Store, name: string, matric: string, course: string, date: string)
    requires SelfCheckIn(s, name, matric, course, date).Success?
    ensures var r := SelfCheckIn(s, name, matric, course, date).value;
            && r.Keys == s.Keys + {course}
            && r[course] == Get(s, course) + [Entry(name, matric, date, Present)]
            && forall c :: c in s && c != course ==> r[c] == s[c]
  {
  }

  /** After an accepted check-in the course lists that matric on that date
      exactly once. */
  lemma SelfCheckInRecordsOnce(s: Store, name: string, matric: string, course: string, date: string)
    requires SelfCheckIn(s, name, matric, course, date).Success?
    ensures CountMatricOn(SelfCheckIn(s, name, matric, course, date).value[course], matric, date) == 1
  {
    var xs := Get(s, course);
    CountMatricOnZero(xs, matric, date);
    CountMatricOnAppend(xs, Entry(name, matric, date, Present));
  }

  /** Submitting the same check-in twice on one day: the second is refused
      and the store keeps the first. */
  lemma SecondCheckInRefused(s: Store, name: string, matric: string, course: string, date: string)
    requires SelfCheckIn(s, name, matric, course, date).Success?
    ensures SelfCheckIn(SelfCheckIn(s, name, matric, course, date).value, name, matric, course, date)
            == Failure(AlreadyRecorded)
  {
    var r := SelfCheckIn(s, name, matric, course, date).value;
    var xs := r[course];
    assert xs[|xs| - 1].matric == matric && xs[|xs| - 1].date == date;
  }

  /** The rule keys on matric and date together: if the matric is recorded
      in the course only on other dates, the check-in goes through. */
  lemma SelfCheckInOtherDateAccepted(s: Store, name: string, matric: string, course: string, date: string)
    requires name != "" && matric != "" && course != ""
    requires forall i :: 0 <= i < |Get(s, course)| && Get(s, course)[i].matric == matric ==>
                           Get(s, course)[i].date != date
    ensures SelfCheckIn(s, name, matric, course, date).Success?
  {
  }

  /** The check-in page's duplicate rule is an invariant: if no course has
      two entries sharing matric and date, none has after a check-in. */
  lemma SelfCheckInPreservesNoDup(s: Store, name: string, matric: string, course: string, date: string)
    requires StoreNoDupMatricDate(s)
    ensures SelfCheckIn(s, name, matric, course, date).Success? ==>
              StoreNoDupMatricDate(SelfCheckIn(s, name, matric, course, date).value)
  {
    if SelfCheckIn(s, name, matric, course, date).Success? {
      var xs := Get(s, course);
      var ys := SelfCheckIn(s, name, matric, course, date).value[course];
      forall i, j | 0 <= i < j < |ys| ensures ys[i].matric != ys[j].matric || ys[i].date != ys[j].date {
        if j == |xs| {
          assert !(xs[i].matric == matric && xs[i].date == date);
        } else {
          assert ys[i] == xs[i] && ys[j] == xs[j];
        }
      }
    }
  }

  /** The check-in page. `records` is the in-memory store and `saved` the
      snapshot in persistent storage; `storedUser` is the persisted session
      and `currentUser` the page's own. */
  class CheckInPage {
    var records: Store
    var saved: Option<Store>
    var currentUser: Session
    var storedUser: Option<Session>
    /** The accounts the sign-in is checked against. */
    const users: seq<User>

    /** Page load: the stored records or an empty store; the session is
        read from storage and then forced back to the guest. */
    constructor (stored: Option<Store>, storedSession: Option<Session>)
      ensures records == (if stored.Some? then stored.value else map[])
      ensures saved == stored && storedUser == storedSession
      ensures currentUser == Guest && users == Users
    {
      users := Users;
      records := if stored.Some? then stored.value else map[];
      saved := stored;
      storedUser := storedSession;
      currentUser := if storedSession.Some? then storedSession.value else Guest;
      currentUser := Guest;
    }

    /** Submit attendance. A refused check-in changes nothing; an accepted
        one becomes the new store, is persisted, and resets the session to
        the guest. Duplicate-freedom per (matric, date) is preserved. */
    method AddInfo(rawName: string, rawMatric: string, rawCourse: string, today: string)
      returns (outcome: Outcome<CheckInError>)
      modifies this
      ensures var r := SelfCheckIn(old(records), Trim(rawName), Trim(rawMatric), Trim(rawCourse), today);
              && (r.Failure? ==>
                    && outcome == Fail(r.error)
                    && records == old(records) && saved == old(saved) && currentUser == old(currentUser))
              && (r.Success? ==>
                    && outcome == Pass
                    && records == r.value && saved == Some(records) && currentUser == Guest)
      ensures storedUser == old(storedUser)
      ensures StoreNoDupMatricDate(old(records)) ==> StoreNoDupMatricDate(records)
    {
      var store := records;
      ghost var r := SelfCheckIn(store, Trim(rawName), Trim(rawMatric), Trim(rawCourse), today);
      if StoreNoDupMatricDate(store) {
        SelfCheckInPreservesNoDup(store, Trim(rawName), Trim(rawMatric), Trim(rawCourse), today);
      }
      var name := Trim(rawName);
      var matric := Trim(rawMatric);
      var course := Trim(rawCourse);
      if name == "" || matric == "" || course == "" {
        return Fail(MissingField);
      }
      if course !in store {
        store := store[course := []];
      }
      if HasMatricOn(store[course], matric, today) {
        return Fail(AlreadyRecorded);
      }
      store := store[course := store[course] + [Entry(name, matric, today, Present)]];
      assert store == r.value;
      records, saved, currentUser := store, Some(store), Guest;
      outcome := Pass;
    }

    /** Sign in: on a match the session becomes the first matching user's
        name and role and is persisted; otherwise nothing changes. */
    method Login(rawName: string, rawPassword: string) returns (ok: bool)
      modifies this
      ensures var u := FindUser(users, Trim(rawName), Trim(rawPassword));
              && ok == u.Some?
              && (ok ==> currentUser == Session(u.value.name, u.value.role) && storedUser == Some(currentUser))
              && (!ok ==> currentUser == old(currentUser) && storedUser == old(storedUser))
      ensures records == old(records) && saved == old(saved)
    {
      var user := FindUser(users, Trim(rawName), Trim(rawPassword));
      ok := user.Some?;
      if ok {
        currentUser := Session(user.value.name, user.value.role);
        storedUser := Some(currentUser);
      }
    }
  }
}
