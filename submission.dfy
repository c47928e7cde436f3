/** The staff page: lecturers and class reps view the store filtered by
    course, add or edit entries through one form, delete entries, and read
    the daily summary. The page keeps one edit slot, the course filter and
    the signed-in session beside the store. */
module Submission {
  import opened Text
  import opened Records
  import opened MatricOrder
  import opened Summary

  /** The entry the form is editing: a course and an index into its list. */
  datatype EditSlot = EditSlot(course: string, index: nat)

  datatype SaveError = MissingField | NoCourseSelected | DuplicateMatric

  datatype DeleteError = NotPermitted | NoSuchCourse

  /** The daily summary: "no records", or each visible course's tally. */
  datatype SummaryView = NoRecords | Table(counts: map<string, map<string, nat>>)

  /** The course a save goes to: the edited entry's course while an edit is
      pending, the current filter otherwise. */
  function TargetCourse(slot: Option<EditSlot>, filter: string): string {
    if slot.Some? then slot.value.course else filter
  }

  /** The index the duplicate check skips: the edited one, if any. */
  function SkipIndex(slot: Option<EditSlot>): Option<nat> {
    if slot.Some? then Some(slot.value.index) else None
  }

  /** Some entry other than the skipped one already has this matric, on any date. */
  predicate MatricTaken(xs: seq<Entry>, matric: string, skip: Option<nat>) {
    exists i :: 0 <= i < |xs| && xs[i].matric == matric && skip != Some(i)
  }

  /** An empty status selection saves as "Present". */
  function SavedStatus(status: string): (r: string)
    ensures r != ""
    ensures status == "" ==> r == Present
    ensures status != "" ==> r == status
  {
    if status == "" then Present else status
  }

  /** A pending edit names an existing position of an existing course. */
  ghost predicate SlotInRange(s: Store, slot: Option<EditSlot>) {
    slot.Some? ==> slot.value.course in s && slot.value.index < |s[slot.value.course]|
  }

  /** The store after the form is saved, or why the save is refused. The
      name and matric are the already-trimmed form values. */
  function StaffSave(s: Store, slot: Option<EditSlot>, filter: string,
                     name: string, matric: string, status: string, today: string)
    : (r: Result<Store, SaveError>)
    requires SlotInRange(s, slot)
    ensures (name == "" || matric == "") ==> r == Failure(MissingField)
    ensures name != "" && matric != ""
            && (TargetCourse(slot, filter) == "" || TargetCourse(slot, filter) == AllCourses)
            ==> r == Failure(NoCourseSelected)
    ensures r.Failure? && name != "" && matric != ""
            && TargetCourse(slot, filter) != "" && TargetCourse(slot, filter) != AllCourses
            ==> r == Failure(DuplicateMatric)
    ensures r.Success? <==>
            && name != "" && matric != ""
            && TargetCourse(slot, filter) != "" && TargetCourse(slot, filter) != AllCourses
            && !MatricTaken(Get(s, TargetCourse(slot, filter)), matric, SkipIndex(slot))
  {
    var course := TargetCourse(slot, filter);
    if name == "" || matric == "" then Failure(MissingField)
    else if course == "" || course == AllCourses then Failure(NoCourseSelected)
    else
      var xs := Get(s, course);
      if MatricTaken(xs, matric, SkipIndex(slot)) then Failure(DuplicateMatric)
      else
        var e := Entry(name, matric, today, SavedStatus(status));
        if slot.Some? then Success(s[course := xs[slot.value.index := e]])
        else Success(s[course := xs + [e]])
  }

  /** With no edit pending, a save appends exactly one entry, dated today
      and with the chosen status (or "Present"), to the end of the filtered
      course, creating the course if needed; no other course changes. */
  lemma StaffAddAppends(s: Store, filter: string, name: string, matric: string,
                        status: string, today: string)
    requires StaffSave(s, None, filter, name, matric, status, today).Success?
    ensures var r := StaffSave(s, None, filter, name, matric, status, today).value;
            && r.Keys == s.Keys + {filter}
            && r[filter] == Get(s, filter) + [Entry(name, matric, today, SavedStatus(status))]
            && |r[filter]| == |Get(s, filter)| + 1
            && forall c :: c in s && c != filter ==> r[c] == s[c]
  {
  }

  /** A new entry whose matric is already in the course, on whatever date,
      is refused, and the store is not changed. */
  lemma StaffAddRejectsKnownMatric(s: Store, filter: string, name: string, matric: string,
                                   status: string, today: string, i: nat)
    requires name != "" && matric != "" && filter != "" && filter != AllCourses
    requires filter in s && i < |s[filter]| && s[filter][i].matric == matric
    ensures StaffSave(s, None, filter, name, matric, status, today) == Failure(DuplicateMatric)
  {
  }

  /** Saving an edit overwrites exactly the edited position with today's
      entry; list length, every other position and every other course stay
      as they were. */
  lemma StaffEditReplacesOne(s: Store, course: string, index: nat, filter: string,
                             name: string, matric: string, status: string, today: string)
    requires SlotInRange(s, Some(EditSlot(course, index)))
    requires StaffSave(s, Some(EditSlot(course, index)), filter, name, matric, status, today).Success?
    ensures var r := StaffSave(s, Some(EditSlot(course, index)), filter, name, matric, status, today).value;
            && r.Keys == s.Keys
            && |r[course]| == |s[course]|
            && r[course][index] == Entry(name, matric, today, SavedStatus(status))
            && (forall j :: 0 <= j < |s[course]| && j != index ==> r[course][j] == s[course][j])
            && (forall c :: c in s && c != course ==> r[c] == s[c])
  {
  }

  /** In a course without repeated matrics, saving an edit that keeps the
      entry's own matric never reports a duplicate: the check skips the
      edited index. */
  lemma StaffEditKeepsOwnMatric(s: Store, course: string, index: nat, filter: string,
                                name: string, status: string, today: string)
    requires SlotInRange(s, Some(EditSlot(course, index)))
    requires NoDupMatric(s[course])
    requires name != "" && course != "" && course != AllCourses
    ensures var matric := s[course][index].matric;
            matric != "" ==>
              StaffSave(s, Some(EditSlot(course, index)), filter, name, matric, status, today).Success?
  {
    var xs := s[course];
    forall j | 0 <= j < |xs| && j != index
      ensures xs[j].matric != xs[index].matric
    {
      if j < index { assert xs[j].matric != xs[index].matric; }
      else { assert xs[index].matric != xs[j].matric; }
    }
  }

  /** The staff page's duplicate rule is an invariant: a store in which no
      course repeats a matric still has none after any save. */
  lemma StaffSavePreservesNoDupMatric(s: Store, slot: Option<EditSlot>, filter: string,
                                      name: string, matric: string, status: string, today: string)
    requires SlotInRange(s, slot)
    requires StoreNoDupMatric(s)
    requires StaffSave(s, slot, filter, name, matric, status, today).Success?
    ensures StoreNoDupMatric(StaffSave(s, slot, filter, name, matric, status, today).value)
  {
    var r := StaffSave(s, slot, filter, name, matric, status, today).value;
    var course := TargetCourse(slot, filter);
    var xs := Get(s, course);
    var ys := r[course];
    forall i, j | 0 <= i < j < |ys| ensures ys[i].matric != ys[j].matric {
      if slot.Some? {
        var k := slot.value.index;
        if i == k { assert !(xs[j].matric == matric && Some(k) != Some(j)); }
        else if j == k { assert !(xs[i].matric == matric && Some(k) != Some(i)); }
        else { assert ys[i] == xs[i] && ys[j] == xs[j]; }
      } else if j == |xs| {
        assert !(xs[i].matric == matric && None != Some(i));
      } else {
        assert ys[i] == xs[i] && ys[j] == xs[j];
      }
    }
  }

  /** The invariant the shared store keeps (check-ins may record one matric
      on several dates): if no course has two entries sharing matric and
      date, none has after any staff save. */
  lemma StaffSavePreservesNoDupMatricDate(s: Store, slot: Option<EditSlot>, filter: string,
                                          name: string, matric: string, status: string, today: string)
    requires SlotInRange(s, slot)
    requires StoreNoDupMatricDate(s)
    ensures StaffSave(s, slot, filter, name, matric, status, today).Success? ==>
              StoreNoDupMatricDate(StaffSave(s, slot, filter, name, matric, status, today).value)
  {
    if StaffSave(s, slot, filter, name, matric, status, today).Success? {
      var r := StaffSave(s, slot, filter, name, matric, status, today).value;
      var course := TargetCourse(slot, filter);
      var xs := Get(s, course);
      var ys := r[course];
      forall i, j | 0 <= i < j < |ys| ensures ys[i].matric != ys[j].matric || ys[i].date != ys[j].date {
        if slot.Some? {
          var k := slot.value.index;
          if i == k { assert !(xs[j].matric == matric && Some(k) != Some(j)); }
          else if j == k { assert !(xs[i].matric == matric && Some(k) != Some(i)); }
          else { assert ys[i] == xs[i] && ys[j] == xs[j]; }
        } else if j == |xs| {
          assert !(xs[i].matric == matric && None != Some(i));
        } else {
          assert ys[i] == xs[i] && ys[j] == xs[j];
        }
      }
    }
  }

  /** The delete handler on the store: remove the entry at `index` (nothing
      when the index is past the end, as `splice` does) and drop the course
      key when its list is left empty. */
  function DeleteAt(s: Store, course: string, index: nat): (r: Store)
    requires course in s
    ensures forall c :: c != course ==> (c in r <==> c in s) && (c in s ==> r[c] == s[c])
    ensures course in r ==> |r[course]| > 0
  {
    var xs := s[course];
    var ys := if index < |xs| then xs[..index] + xs[index + 1..] else xs;
    if |ys| == 0 then s - {course} else s[course := ys]
  }

  /** Deleting an existing position removes exactly that entry: the list
      loses that one element, keeps the others in order, and the course key
      disappears exactly when the list becomes empty. */
  lemma DeleteAtRemovesOne(s: Store, course: string, index: nat)
    requires course in s && index < |s[course]|
    ensures var r := DeleteAt(s, course, index);
            && (course !in r <==> |s[course]| == 1)
            && (course in r ==>
                  && |r[course]| == |s[course]| - 1
                  && (forall j :: 0 <= j < index ==> r[course][j] == s[course][j])
                  && (forall j :: index <= j < |r[course]| ==> r[course][j] == s[course][j + 1])
                  && multiset(r[course]) + multiset{s[course][index]} == multiset(s[course]))
  {
    var xs := s[course];
    assert xs == xs[..index] + [xs[index]] + xs[index + 1..];
  }

  /** Deleting keeps both duplicate rules: removing an entry cannot create
      a repeated matric or a repeated (matric, date) pair. */
  lemma DeleteAtPreservesNoDup(s: Store, course: string, index: nat)
    requires course in s
    ensures StoreNoDupMatric(s) ==> StoreNoDupMatric(DeleteAt(s, course, index))
    ensures StoreNoDupMatricDate(s) ==> StoreNoDupMatricDate(DeleteAt(s, course, index))
  {
    var xs := s[course];
    var r := DeleteAt(s, course, index);
    if course in r && index < |xs| {
      var ys := r[course];
      assert forall j :: 0 <= j < |ys| ==> ys[j] == xs[if j < index then j else j + 1];
    }
  }

  /** The delete-permission gate: the role, lower-cased, is a class rep's or
      a lecturer's. */
  predicate CanDelete(role: string) {
    var r := ToLower(role);
    r == "classrep" || r == "lecturer"
  }

  /** The gate's answer never depends on the role's letter case. */
  lemma CanDeleteCaseInsensitive(role: string)
    ensures CanDelete(role) == CanDelete(ToLower(role))
  {
    ToLowerIdempotent(role);
  }

  /** The default session may not delete. */
  lemma GuestCannotDelete()
    ensures !CanDelete(Guest.role)
  {
    assert |ToLower(Guest.role)| == 7;
  }

  /** The gate ignores letter case: a stored role "Lecturer" may delete. */
  lemma CanDeleteIgnoresCase()
    ensures CanDelete("Lecturer")
  {
    var s := "Lecturer";
    var r := ToLower(s);
    forall i | 0 <= i < 8 ensures r[i] == "lecturer"[i] {
      assert r[i] == LowerChar(s[i]);
    }
    assert r == "lecturer";
  }

  /** The summary's date: the picked one, or today when none is picked. */
  function TargetDate(selected: Option<string>, today: string): (d: string)
    ensures selected.Some? && selected.value != "" ==> d == selected.value
    ensures selected.None? || selected == Some("") ==> d == today
  {
    if selected.Some? && selected.value != "" then selected.value else today
  }

  /** The delete handler as written leaves a pending edit in place although
      the indices after the deleted entry shift down by one. Here "Ben" is
      being edited at index 1 when "Ada" at index 0 is deleted: saving Ben
      with his own matric is then refused as a duplicate, and saving him
      with a corrected matric overwrites Cy's entry while Ben's old entry
      stays. */
  lemma StaleEditSlotAfterDelete()
    ensures var ada := Entry("Ada", "CS/100", "01-02-2025", Present);
            var ben := Entry("Ben", "CS/101", "01-02-2025", Present);
            var cy := Entry("Cy", "CS/102", "01-02-2025", Present);
            var s := map["Math" := [ada, ben, cy]];
            var slot := Some(EditSlot("Math", 1));
            var afterDelete := DeleteAt(s, "Math", 0);
            && SlotInRange(afterDelete, slot)
            && StaffSave(afterDelete, slot, "Math", "Ben", "CS/101", Excused, "02-02-2025")
               == Failure(DuplicateMatric)
            && var r := StaffSave(afterDelete, slot, "Math", "Ben", "CS/201", Excused, "02-02-2025");
               && r.Success?
               && r.value["Math"] == [ben, Entry("Ben", "CS/201", "02-02-2025", Excused)]
  {
    var ada := Entry("Ada", "CS/100", "01-02-2025", Present);
    var ben := Entry("Ben", "CS/101", "01-02-2025", Present);
    var cy := Entry("Cy", "CS/102", "01-02-2025", Present);
    var s := map["Math" := [ada, ben, cy]];
    assert [ada, ben, cy][..0] + [ada, ben, cy][1..] == [ben, cy];
    var afterDelete := DeleteAt(s, "Math", 0);
    assert afterDelete == map["Math" := [ben, cy]];
    assert MatricTaken([ben, cy], "CS/101", Some(1)) by {
      assert [ben, cy][0].matric == "CS/101";
    }
    assert !MatricTaken([ben, cy], "CS/201", Some(1)) by {
      assert "CS/101" != "CS/201" by { assert "CS/101"[3] != "CS/201"[3]; }
    }
  }

  /** The staff page. `records` is the in-memory store and `saved` the
      snapshot in persistent storage; `edit` is the single edit slot and
      `currentCourse` the course filter. */
  class SubmissionPage {
    var records: Store
    var saved: Option<Store>
    var edit: Option<EditSlot>
    var currentCourse: string
    var currentUser: Session
    /** The entry that was selected for editing. */
    ghost var editing: Entry

    /** A pending edit names the very entry that was selected for editing. */
    ghost predicate Valid()
      reads this
    {
      && SlotInRange(records, edit)
      && (edit.Some? ==> records[edit.value.course][edit.value.index] == editing)
    }

    /** Page load: the stored records or an empty store, the stored session
        or the guest, no pending edit, and the filter on every course. */
    constructor (stored: Option<Store>, storedUser: Option<Session>)
      ensures Valid()
      ensures records == (if stored.Some? then stored.value else map[])
      ensures saved == stored
      ensures currentUser == (if storedUser.Some? then storedUser.value else Guest)
      ensures edit == None && currentCourse == AllCourses
    {
      records := if stored.Some? then stored.value else map[];
      saved := stored;
      currentUser := if storedUser.Some? then storedUser.value else Guest;
      edit := None;
      currentCourse := AllCourses;
    }

    /** The edit button of a rendered row: the slot now holds that row. */
    method BeginEdit(course: string, index: nat)
      requires course in records && index < |records[course]|
      modifies this
      ensures Valid()
      ensures edit == Some(EditSlot(course, index)) && editing == records[course][index]
      ensures records == old(records) && saved == old(saved)
      ensures currentCourse == old(currentCourse) && currentUser == old(currentUser)
    {
      edit := Some(EditSlot(course, index));
      editing := records[course][index];
    }

    /** Cancel: the slot is emptied and nothing else changes. */
    method CancelEdit()
      modifies this
      ensures Valid()
      ensures edit == None
      ensures records == old(records) && saved == old(saved)
      ensures currentCourse == old(currentCourse) && currentUser == old(currentUser)
    {
      edit := None;
    }

    /** A change of the course filter also cancels any pending edit. */
    method SelectCourse(filter: string)
      modifies this
      ensures Valid()
      ensures currentCourse == filter && edit == None
      ensures records == old(records) && saved == old(saved) && currentUser == old(currentUser)
    {
      currentCourse := filter;
      CancelEdit();
    }

    /** Add or edit from the form. A refused save changes nothing; an
        accepted one becomes the new store and is persisted, and the slot
        is emptied. */
    method AddInfo(rawName: string, rawMatric: string, status: string, today: string)
      returns (outcome: Outcome<SaveError>)
      requires Valid()
      modifies this
      ensures Valid()
      ensures var r := StaffSave(old(records), old(edit), old(currentCourse),
                                 Trim(rawName), Trim(rawMatric), status, today);
              && (r.Failure? ==>
                    && outcome == Fail(r.error)
                    && records == old(records) && saved == old(saved) && edit == old(edit))
              && (r.Success? ==>
                    && outcome == Pass
                    && records == r.value && saved == Some(records) && edit == None)
      ensures currentCourse == old(currentCourse) && currentUser == old(currentUser)
      ensures StoreNoDupMatricDate(old(records)) ==> StoreNoDupMatricDate(records)
    {
      var store, slot := records, edit;
      ghost var r := StaffSave(store, slot, currentCourse, Trim(rawName), Trim(rawMatric), status, today);
      var name := Trim(rawName);
      var matric := Trim(rawMatric);
      if name == "" || matric == "" {
        return Fail(MissingField);
      }
      var target := TargetCourse(slot, currentCourse);
      if target == "" || target == AllCourses {
        return Fail(NoCourseSelected);
      }
      var xs := Get(store, target);
      store := store[target := xs];
      if MatricTaken(xs, matric, SkipIndex(slot)) {
        return Fail(DuplicateMatric);
      }
      var e := Entry(name, matric, today, SavedStatus(status));
      if slot.Some? {
        store := store[target := xs[slot.value.index := e]];
        assert store == records[target := xs[slot.value.index := e]];
      } else {
        store := store[target := xs + [e]];
        assert store == records[target := xs + [e]];
      }
      if StoreNoDupMatricDate(records) {
        StaffSavePreservesNoDupMatricDate(records, slot, currentCourse, name, matric, status, today);
      }
      records, edit, saved := store, None, Some(store);
      outcome := Pass;
    }

    /** The delete button: only shown to a class rep or a lecturer. It
        removes the entry, prunes an emptied course and persists the store;
        it also cancels any pending edit, since the indices it names may have
        shifted. */
    method Delete(course: string, index: nat) returns (outcome: Outcome<DeleteError>)
      requires Valid()
      modifies this
      ensures Valid()
      ensures !CanDelete(currentUser.role) ==>
                && outcome == Fail(NotPermitted)
                && records == old(records) && saved == old(saved) && edit == old(edit)
      ensures CanDelete(currentUser.role) && course !in old(records) ==>
                && outcome == Fail(NoSuchCourse)
                && records == old(records) && saved == old(saved) && edit == old(edit)
      ensures CanDelete(currentUser.role) && course in old(records) ==>
                && outcome == Pass
                && records == DeleteAt(old(records), course, index)
                && saved == Some(records) && edit == None
      ensures currentCourse == old(currentCourse) && currentUser == old(currentUser)
      ensures StoreNoDupMatricDate(old(records)) ==> StoreNoDupMatricDate(records)
    {
      if !CanDelete(currentUser.role) {
        return Fail(NotPermitted);
      }
      if course !in records {
        return Fail(NoSuchCourse);
      }
      DeleteAtPreservesNoDup(records, course, index);
      var xs := records[course];
      if index < |xs| {
        xs := xs[..index] + xs[index + 1..];
      }
      if |xs| == 0 {
        records := records - {course};
      } else {
        records := records[course := xs];
      }
      edit := None;
      saved := Some(records);
      outcome := Pass;
    }

    /** The render-time sort: every course's list, in place, by matric.
        Rendering follows a save, a delete or a change of filter, none of
        which leaves an edit pending. */
    method SortAll(leq: (string, string) -> bool)
      requires TotalPreorder(leq)
      requires Valid() && edit == None
      modifies this
      ensures Valid()
      ensures records.Keys == old(records).Keys
      ensures forall c :: c in records ==>
                SortedByMatric(records[c], leq) && multiset(records[c]) == multiset(old(records)[c])
      ensures saved == old(saved) && edit == old(edit)
      ensures currentCourse == old(currentCourse) && currentUser == old(currentUser)
      ensures StoreNoDupMatricDate(old(records)) ==> StoreNoDupMatricDate(records)
    {
      var start, store := records, records;
      var todo := store.Keys;
      while todo != {}
        invariant todo <= store.Keys == start.Keys
        invariant forall c :: c in store ==> multiset(store[c]) == multiset(start[c])
        invariant forall c :: c in store && c !in todo ==> SortedByMatric(store[c], leq)
        invariant unchanged(this)
        decreases todo
      {
        var c :| c in todo;
        todo := todo - {c};
        var ys := SortedCopy(store[c], leq);
        store := store[c := ys];
      }
      StorePermutationKeepsNoDupMatricDate(start, store);
      records := store;
    }

    /** The daily summary for the picked date (today when none is picked):
        each course the filter lets through is tallied; the result is "no
        records" exactly when none of those courses has an entry on that
        date, which includes the case that the filter lets no course
        through. */
    method Summary(selected: Option<string>, today: string) returns (view: SummaryView)
      ensures var date := TargetDate(selected, today);
              && (view.NoRecords? <==>
                    forall c :: c in records && Passes(currentCourse, c) ==> !HasEntryOn(records[c], date))
              && (view.Table? ==>
                    && view.counts.Keys == Visible(records, currentCourse)
                    && forall c :: c in view.counts ==> IsTally(view.counts[c], records[c], date))
    {
      var date := TargetDate(selected, today);
      var counts := TallyVisible(records, currentCourse, date);
      NoRecordsIffNoEntry(counts, records, currentCourse, date);
      if |counts| == 0 || AllZero(counts) {
        view := NoRecords;
      } else {
        view := Table(counts);
      }
    }
  }
}
