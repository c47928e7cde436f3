/** The daily summary: for one course, how many of its entries on a target
    date carry each status. The tally of a course starts with Present,
    Absent and Excused at zero and adds one to the entry's own status for
    every entry on the target date. */
module Summary {
  import opened Records

  /** The number of entries on `date` whose status is `status`. */
  function CountOf(xs: seq<Entry>, date: string, status: string): nat
  {
    if xs == [] then 0
    else CountOf(xs[..|xs| - 1], date, status)
         + (if xs[|xs| - 1].date == date && xs[|xs| - 1].status == status then 1 else 0)
  }

  /** The number of entries on `date`, whatever their status. */
  function CountOn(xs: seq<Entry>, date: string): nat
  {
    if xs == [] then 0
    else CountOn(xs[..|xs| - 1], date) + (if xs[|xs| - 1].date == date then 1 else 0)
  }

  /** The statuses that occur among the entries on `date`. */
  function StatusesOn(xs: seq<Entry>, date: string): set<string>
  {
    if xs == [] then {}
    else StatusesOn(xs[..|xs| - 1], date)
         + (if xs[|xs| - 1].date == date then {xs[|xs| - 1].status} else {})
  }

  /** Some entry of the list is on `date`. */
  predicate HasEntryOn(xs: seq<Entry>, date: string) {
    exists i :: 0 <= i < |xs| && xs[i].date == date
  }

  /** The three buckets every course's tally starts with. */
  function Buckets(): set<string> {
    {Present, Absent, Excused}
  }

  /** `t` is the tally of `xs` for `date`: its keys are the three buckets
      and every status seen on that date, and each key maps to its count. */
  ghost predicate IsTally(t: map<string, nat>, xs: seq<Entry>, date: string) {
    && t.Keys == Buckets() + StatusesOn(xs, date)
    && forall k :: k in t ==> t[k] == CountOf(xs, date, k)
  }

  /** A status occurs on `date` exactly when some entry on that date has it. */
  lemma {:induction false} StatusesOnMembers(xs: seq<Entry>, date: string, k: string)
    ensures k in StatusesOn(xs, date) <==>
            exists i :: 0 <= i < |xs| && xs[i].date == date && xs[i].status == k
  {
    if xs != [] {
      var init := xs[..|xs| - 1];
      StatusesOnMembers(init, date, k);
      if k in StatusesOn(init, date) {
        var i :| 0 <= i < |init| && init[i].date == date && init[i].status == k;
        assert xs[i] == init[i];
      }
      if exists i :: 0 <= i < |xs| && xs[i].date == date && xs[i].status == k {
        var i :| 0 <= i < |xs| && xs[i].date == date && xs[i].status == k;
        if i < |init| { assert init[i] == xs[i]; }
      }
    }
  }

  /** A status has a positive count on `date` exactly when it occurs then. */
  lemma {:induction false} CountOfPositive(xs: seq<Entry>, date: string, k: string)
    ensures CountOf(xs, date, k) > 0 <==> k in StatusesOn(xs, date)
  {
    if xs != [] {
      CountOfPositive(xs[..|xs| - 1], date, k);
    }
  }

  /** There are entries on `date` exactly when some status occurs then. */
  lemma HasEntryOnStatuses(xs: seq<Entry>, date: string)
    ensures HasEntryOn(xs, date) <==> StatusesOn(xs, date) != {}
  {
    if HasEntryOn(xs, date) {
      var i :| 0 <= i < |xs| && xs[i].date == date;
      StatusesOnMembers(xs, date, xs[i].status);
    }
    if StatusesOn(xs, date) != {} {
      var k :| k in StatusesOn(xs, date);
      StatusesOnMembers(xs, date, k);
    }
  }

  /** The three displayed buckets together count at most the entries on the
      date, which are at most the course's entries. */
  lemma {:induction false} CountsBounded(xs: seq<Entry>, date: string)
    ensures CountOf(xs, date, Present) + CountOf(xs, date, Absent) + CountOf(xs, date, Excused)
            <= CountOn(xs, date) <= |xs|
  {
    if xs != [] {
      CountsBounded(xs[..|xs| - 1], date);
    }
  }

  /** A tally is all zeros exactly when the course has no entry on the date:
      this is what separates "no records" from a table of zeros. */
  lemma AllZeroIffNoEntry(t: map<string, nat>, xs: seq<Entry>, date: string)
    requires IsTally(t, xs, date)
    ensures (forall k :: k in t ==> t[k] == 0) <==> !HasEntryOn(xs, date)
  {
    HasEntryOnStatuses(xs, date);
    if HasEntryOn(xs, date) {
      var k :| k in StatusesOn(xs, date);
      CountOfPositive(xs, date, k);
      assert t[k] > 0;
    } else {
      forall k | k in t ensures t[k] == 0 {
        CountOfPositive(xs, date, k);
      }
    }
  }

  /** Counts one course's entries for `date`, bucketed by status. */
  method TallyCourse(xs: seq<Entry>, date: string) returns (t: map<string, nat>)
    ensures IsTally(t, xs, date)
  {
    t := map[Present := 0, Absent := 0, Excused := 0];
    var i := 0;
    while i < |xs|
      invariant 0 <= i <= |xs|
      invariant IsTally(t, xs[..i], date)
    {
      var rec := xs[i];
      assert xs[..i + 1][..i] == xs[..i];
      if rec.date == date {
        var before := if rec.status in t then t[rec.status] else 0;
        if rec.status !in t {
          CountOfPositive(xs[..i], date, rec.status);
        }
        t := t[rec.status := before + 1];
      }
      i := i + 1;
    }
    assert xs[..i] == xs;
  }

  /** Every tally of the summary is all zeros (vacuously so when there is
      none). */
  predicate AllZero(tallies: map<string, map<string, nat>>) {
    forall c | c in tallies :: forall k | k in tallies[c] :: tallies[c][k] == 0
  }

  /** The "no records" test on the tallies of the courses a filter lets
      through holds exactly when none of those courses has an entry on the
      date. */
  lemma NoRecordsIffNoEntry(tallies: map<string, map<string, nat>>, s: Store,
                            filter: string, date: string)
    requires forall c :: c in tallies <==> c in s && Passes(filter, c)
    requires forall c :: c in tallies ==> IsTally(tallies[c], s[c], date)
    ensures (|tallies| == 0 || AllZero(tallies)) <==>
            forall c :: c in s && Passes(filter, c) ==> !HasEntryOn(s[c], date)
  {
    forall c | c in tallies
      ensures (forall k :: k in tallies[c] ==> tallies[c][k] == 0) <==> !HasEntryOn(s[c], date)
    {
      AllZeroIffNoEntry(tallies[c], s[c], date);
    }
  }

  /** Tallies every course the filter lets through, course by course. */
  method TallyVisible(s: Store, filter: string, date: string)
    returns (tallies: map<string, map<string, nat>>)
    ensures forall c :: c in tallies <==> c in s && Passes(filter, c)
    ensures forall c :: c in tallies ==> IsTally(tallies[c], s[c], date)
  {
    tallies := map[];
    var todo := s.Keys;
    while todo != {}
      invariant todo <= s.Keys
      invariant forall c :: c in tallies <==> c in s && c !in todo && Passes(filter, c)
      invariant forall c :: c in tallies ==> IsTally(tallies[c], s[c], date)
      decreases todo
    {
      var c :| c in todo;
      todo := todo - {c};
      if Passes(filter, c) {
        var t := TallyCourse(s[c], date);
        tallies := tallies[c := t];
      }
    }
  }
}
