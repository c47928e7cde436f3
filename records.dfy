/** The attendance record store shared by the check-in page and the staff
    page: a map from course name to the ordered list of that course's
    entries, and the signed-in session. */
module Records {

  datatype Option<T> = None | Some(value: T)

  datatype Result<T, E> = Success(value: T) | Failure(error: E)

  /** The result of a handler that either goes through or is refused. */
  datatype Outcome<E> = Pass | Fail(error: E)

  /** One attendance line. `date` is a DD-MM-YYYY string; `status` is the
      string the form supplied ("Present", "Absent", "Excused"). */
  datatype Entry = Entry(name: string, matric: string, date: string, status: string)

  /** Course name to that course's entries, in list order. */
  type Store = map<string, seq<Entry>>

  /** The signed-in actor; `role` is "student", "classrep" or "lecturer". */
  datatype Session = Session(name: string, role: string)

  /** The default session, used when nobody is signed in. */
  const Guest: Session := Session("Guest", "student")

  const Present: string := "Present"
  const Absent: string := "Absent"
  const Excused: string := "Excused"

  /** The filter value that selects every course. */
  const AllCourses: string := "all"

  /** A course's list, or the empty list that `records[c] || []` stands for
      when the course is absent. */
  function Get(s: Store, course: string): (xs: seq<Entry>)
    ensures course in s ==> xs == s[course]
    ensures course !in s ==> xs == []
  {
    if course in s then s[course] else []
  }

  /** The course filter: "all" or exactly this course. */
  predicate Passes(filter: string, course: string) {
    filter == AllCourses || filter == course
  }

  /** The courses a filter lets through. */
  function Visible(s: Store, filter: string): (cs: set<string>)
    ensures forall c :: c in cs <==> c in s && Passes(filter, c)
  {
    set c | c in s && Passes(filter, c)
  }

  /** Some entry of the list has this matric on this date. */
  predicate HasMatricOn(xs: seq<Entry>, matric: string, date: string) {
    exists i :: 0 <= i < |xs| && xs[i].matric == matric && xs[i].date == date
  }

  /** No two entries of the list share both matric and date. */
  ghost predicate NoDupMatricDate(xs: seq<Entry>) {
    forall i, j :: 0 <= i < j < |xs| ==> xs[i].matric != xs[j].matric || xs[i].date != xs[j].date
  }

  /** No two entries of the list share a matric, whatever their dates. */
  ghost predicate NoDupMatric(xs: seq<Entry>) {
    forall i, j :: 0 <= i < j < |xs| ==> xs[i].matric != xs[j].matric
  }

  ghost predicate StoreNoDupMatricDate(s: Store) {
    forall c :: c in s ==> NoDupMatricDate(s[c])
  }

  ghost predicate StoreNoDupMatric(s: Store) {
    forall c :: c in s ==> NoDupMatric(s[c])
  }

  /** The number of entries with this matric on this date. */
  function CountMatricOn(xs: seq<Entry>, matric: string, date: string): nat
  {
    if xs == [] then 0
    else CountMatricOn(xs[..|xs| - 1], matric, date)
         + (if xs[|xs| - 1].matric == matric && xs[|xs| - 1].date == date then 1 else 0)
  }

  /** The count is zero exactly when no entry has that matric on that date. */
  lemma {:induction false} CountMatricOnZero(xs: seq<Entry>, matric: string, date: string)
    ensures CountMatricOn(xs, matric, date) == 0 <==> !HasMatricOn(xs, matric, date)
  {
    if xs != [] {
      var init := xs[..|xs| - 1];
      CountMatricOnZero(init, matric, date);
      if HasMatricOn(init, matric, date) {
        var i :| 0 <= i < |init| && init[i].matric == matric && init[i].date == date;
        assert xs[i] == init[i];
      }
      if HasMatricOn(xs, matric, date) && xs[|xs| - 1].matric != matric {
        var i :| 0 <= i < |xs| && xs[i].matric == matric && xs[i].date == date;
        assert init[i] == xs[i];
      }
      if HasMatricOn(xs, matric, date) && xs[|xs| - 1].date != date {
        var i :| 0 <= i < |xs| && xs[i].matric == matric && xs[i].date == date;
        assert init[i] == xs[i];
      }
    }
  }

  /** Appending one entry adds one to its own (matric, date) count. */
  lemma CountMatricOnAppend(xs: seq<Entry>, e: Entry)
    ensures CountMatricOn(xs + [e], e.matric, e.date) == CountMatricOn(xs, e.matric, e.date) + 1
  {
    assert (xs + [e])[..|xs|] == xs;
  }

  /** The per-matric rule of the staff page is the stronger of the two
      duplicate rules: a store free of repeated matrics is also free of
      repeated (matric, date) pairs. */
  lemma NoDupMatricIsStronger(s: Store)
    requires StoreNoDupMatric(s)
    ensures StoreNoDupMatricDate(s)
  {
  }

  /** An entry counted twice in a list sits at two distinct positions. */
  lemma {:induction false} TwoCopies(xs: seq<Entry>, e: Entry)
    requires multiset(xs)[e] >= 2
    ensures exists p, q :: 0 <= p < q < |xs| && xs[p] == e && xs[q] == e
  {
    var init := xs[..|xs| - 1];
    assert xs == init + [xs[|xs| - 1]];
    if xs[|xs| - 1] == e {
      assert e in multiset(init);
      var p :| 0 <= p < |init| && init[p] == e;
      assert xs[p] == e && xs[|xs| - 1] == e;
    } else {
      TwoCopies(init, e);
      var p, q :| 0 <= p < q < |init| && init[p] == e && init[q] == e;
      assert xs[p] == e && xs[q] == e;
    }
  }

  /** Reordering a list keeps (matric, date) duplicate-freedom: any two
      positions of the reordered list come from two distinct positions of
      the original. */
  lemma PermutationKeepsNoDupMatricDate(xs: seq<Entry>, ys: seq<Entry>)
    requires multiset(ys) == multiset(xs)
    requires NoDupMatricDate(xs)
    ensures NoDupMatricDate(ys)
  {
    forall i, j | 0 <= i < j < |ys|
      ensures ys[i].matric != ys[j].matric || ys[i].date != ys[j].date
    {
      var a, b := ys[i], ys[j];
      if a == b {
        assert ys == ys[..j] + ys[j..];
        assert ys[..j][i] == a && ys[j..][0] == a;
        assert multiset(ys)[a] == multiset(ys[..j])[a] + multiset(ys[j..])[a];
        TwoCopies(xs, a);
      } else {
        assert a in multiset(xs) && b in multiset(xs);
        var p :| 0 <= p < |xs| && xs[p] == a;
        var q :| 0 <= q < |xs| && xs[q] == b;
        if p < q {
          assert xs[p].matric != xs[q].matric || xs[p].date != xs[q].date;
        } else {
          assert xs[q].matric != xs[p].matric || xs[q].date != xs[p].date;
        }
      }
    }
  }

  /** Reordering every course's list keeps the store's (matric, date)
      duplicate-freedom. */
  lemma StorePermutationKeepsNoDupMatricDate(s: Store, t: Store)
    requires t.Keys == s.Keys
    requires forall c :: c in t ==> multiset(t[c]) == multiset(s[c])
    ensures StoreNoDupMatricDate(s) ==> StoreNoDupMatricDate(t)
  {
    if StoreNoDupMatricDate(s) {
      forall c | c in t ensures NoDupMatricDate(t[c]) {
        PermutationKeepsNoDupMatricDate(s[c], t[c]);
      }
    }
  }
}
