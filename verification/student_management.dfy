/** The student table of a class (src/components/admin/student-management.tsx):
    the index from student id to fee record, the name filter, the fee-status
    badge and label, and the delete-confirmation state. */
module StudentManagement {
  import opened Wrappers
  import opened JsText
  import opened JsArray
  import opened Records

  /** Position `i` holds the last fee, among the first `n`, that belongs to its student. */
  predicate LastUpTo(fees: seq<FeeRecord>, n: int, i: int)
    requires n <= |fees|
  {
    0 <= i < n && forall j :: i < j < n ==> fees[j].studentId != fees[i].studentId
  }

  /** The map `set(fee.studentId, fee)` builds over `fees` in list order. */
  function FeeIndex(fees: seq<FeeRecord>): map<string, FeeRecord> {
    if fees == [] then map[]
    else
      var last := fees[|fees| - 1];
      FeeIndex(fees[..|fees| - 1])[last.studentId := last]
  }

  /** The index has a key for exactly the students that have a fee in the list. */
  lemma {:induction false} FeeIndexKeys(fees: seq<FeeRecord>)
    ensures forall sid :: sid in FeeIndex(fees) <==> exists i :: 0 <= i < |fees| && fees[i].studentId == sid
  {
    if fees != [] {
      var init := fees[..|fees| - 1];
      var last := fees[|fees| - 1];
      assert FeeIndex(fees) == FeeIndex(init)[last.studentId := last];
      FeeIndexKeys(init);
      forall sid | sid in FeeIndex(fees)
        ensures exists i :: 0 <= i < |fees| && fees[i].studentId == sid
      {
        if sid != last.studentId {
          assert sid in FeeIndex(init);
          var i :| 0 <= i < |init| && init[i].studentId == sid;
          assert fees[i] == init[i];
        }
      }
      forall i | 0 <= i < |fees| ensures fees[i].studentId in FeeIndex(fees) {
        if i < |init| {
          assert init[i] == fees[i];
        }
      }
    }
  }

  /** A later fee of the same student replaces an earlier one: each student's entry is
      that student's last fee in the list. */
  lemma {:induction false} FeeIndexLastWins(fees: seq<FeeRecord>)
    ensures forall i | LastUpTo(fees, |fees|, i) ::
      fees[i].studentId in FeeIndex(fees) && FeeIndex(fees)[fees[i].studentId] == fees[i]
  {
    if fees != [] {
      var init := fees[..|fees| - 1];
      var last := fees[|fees| - 1];
      assert FeeIndex(fees) == FeeIndex(init)[last.studentId := last];
      FeeIndexLastWins(init);
      forall i | LastUpTo(fees, |fees|, i)
        ensures fees[i].studentId in FeeIndex(fees) && FeeIndex(fees)[fees[i].studentId] == fees[i]
      {
        if i < |init| {
          assert LastUpTo(init, |init|, i);
        }
      }
    }
  }

  /** `feesByStudentId`: a `Map` filled by `set(fee.studentId, fee)` for each fee in list
      order, so that a later fee of the same student replaces an earlier one. An absent
      fee list gives the empty map. */
  method IndexFeesByStudent(allFees: Option<seq<FeeRecord>>) returns (index: map<string, FeeRecord>)
    ensures allFees.None? ==> index == map[]
    ensures allFees.Some? ==> index == FeeIndex(allFees.value)
    ensures allFees.Some? ==>
      forall sid :: sid in index <==> exists i :: 0 <= i < |allFees.value| && allFees.value[i].studentId == sid
    ensures allFees.Some? ==>
      forall i | LastUpTo(allFees.value, |allFees.value|, i) ::
        allFees.value[i].studentId in index && index[allFees.value[i].studentId] == allFees.value[i]
  {
    index := map[];
    if allFees.None? {
      return;
    }
    var fees := allFees.value;
    var n := 0;
    while n < |fees|
      invariant 0 <= n <= |fees|
      invariant index == FeeIndex(fees[..n])
    {
      assert fees[..n + 1][..n] == fees[..n];
      index := index[fees[n].studentId := fees[n]];
      n := n + 1;
    }
    assert fees[..n] == fees;
    FeeIndexKeys(fees);
    FeeIndexLastWins(fees);
  }

  /** The name the table shows and the filter searches: `${firstName} ${lastName}`. */
  function FullName(s: Student): (name: string)
    ensures |name| == |s.firstName| + 1 + |s.lastName|
    ensures name[..|s.firstName|] == s.firstName
    ensures name[|s.firstName|] == ' '
    ensures name[|s.firstName| + 1..] == s.lastName
  {
    s.firstName + " " + s.lastName
  }

  /** The full name, lower-cased, contains the lower-cased filter text. An empty filter
      matches every student; a filter longer than the name matches none. */
  function MatchesFilter(s: Student, filter: string): (m: bool)
    ensures filter == "" ==> m
    ensures m ==> |filter| <= |FullName(s)|
  {
    var name, needle := Lower(FullName(s)), Lower(filter);
    assert filter == "" ==> OccursAt(name, needle, 0);
    Includes(name, needle)
  }

  /** A student matches exactly when the lower-cased filter occurs somewhere in the
      lower-cased full name. */
  lemma MatchesFilterIff(s: Student, filter: string)
    ensures MatchesFilter(s, filter) ==> exists i :: OccursAt(Lower(FullName(s)), Lower(filter), i)
    ensures (exists i :: OccursAt(Lower(FullName(s)), Lower(filter), i)) ==> MatchesFilter(s, filter)
  {
  }

  /** `filteredStudents`: the students whose name matches, or nothing while the list is absent. */
  function FilteredStudents(students: Option<seq<Student>>, filter: string): (r: seq<Student>)
    ensures students.None? ==> r == []
    ensures students.Some? ==> |r| <= |students.value|
    ensures forall i :: 0 <= i < |r| ==> MatchesFilter(r[i], filter)
  {
    match students
    case None => []
    case Some(ss) => Filter(ss, s => MatchesFilter(s, filter))
  }

  /** The filter keeps the matching students, every copy of each, in their original order. */
  lemma FilteredStudentsSelect(students: seq<Student>, filter: string)
    ensures IsSubsequence(FilteredStudents(Some(students), filter), students)
    ensures forall s :: s in FilteredStudents(Some(students), filter) <==> s in students && MatchesFilter(s, filter)
    ensures forall s ::
      multiset(FilteredStudents(Some(students), filter))[s] == if MatchesFilter(s, filter) then multiset(students)[s] else 0
  {
    var p := s => MatchesFilter(s, filter);
    FilterIsSubsequence(students, p);
    forall s ensures s in Filter(students, p) <==> s in students && p(s) {
      FilterMembership(students, p, s);
    }
    forall s ensures multiset(Filter(students, p))[s] == if p(s) then multiset(students)[s] else 0 {
      FilterCount(students, p, s);
    }
  }

  /** An empty search box shows every student. */
  lemma EmptyFilterKeepsAll(students: seq<Student>)
    ensures FilteredStudents(Some(students), "") == students
  {
    FilterKeepsAll(students, s => MatchesFilter(s, ""));
  }

  /** Typing the filter in upper or lower case selects the same students. */
  lemma FilterIgnoresCase(students: seq<Student>, filter: string)
    ensures FilteredStudents(Some(students), filter) == FilteredStudents(Some(students), Lower(filter))
  {
    LowerIdempotent(filter);
    FilterCongruent(students, s => MatchesFilter(s, filter), s => MatchesFilter(s, Lower(filter)));
  }

  /** The badge variants the table uses. */
  datatype BadgeVariant = Success | Warning | Destructive | Outline

  /** `feesByStudentId.get(student.id)?.status`. */
  function FeeStatusOf(index: map<string, FeeRecord>, studentId: string): (r: Option<string>)
    ensures r.Some? <==> studentId in index
    ensures r.Some? ==> r.value == index[studentId].status
  {
    if studentId in index then Some(index[studentId].status) else None
  }

  /** The badge for a student's fee status: Paid, Partial and Pending have their own
      colour; anything else, or no fee record at all, is outlined. */
  function StatusBadge(status: Option<string>): (b: BadgeVariant)
    ensures b == Success <==> status == Some("Paid")
    ensures b == Warning <==> status == Some("Partial")
    ensures b == Destructive <==> status == Some("Pending")
    ensures b == Outline <==> status.None? || status.value !in FeeStatuses
  {
    if status == Some("Paid") then Success
    else if status == Some("Partial") then Warning
    else if status == Some("Pending") then Destructive
    else Outline
  }

  /** The badge text `feeStatus || 'Not Set'`: never empty. */
  function StatusLabel(status: Option<string>): (text: string)
    ensures text != ""
    ensures status.Some? && status.value != "" ==> text == status.value
    ensures status.None? || status.value == "" ==> text == "Not Set"
  {
    if status.Some? && status.value != "" then status.value else "Not Set"
  }

  /** The fee cell of one table row. A student without a fee record shows an outlined
      "Not Set"; with one, the badge and label are those of that record's status. */
  function FeeCell(index: map<string, FeeRecord>, student: Student): (cell: (BadgeVariant, string))
    ensures student.id !in index ==> cell == (Outline, "Not Set")
    ensures student.id in index ==>
      var status := index[student.id].status;
      && cell.0 == StatusBadge(Some(status))
      && cell.1 == (if status != "" then status else "Not Set")
  {
    var status := FeeStatusOf(index, student.id);
    (StatusBadge(status), StatusLabel(status))
  }

  /** The delete-confirmation part of the table's state. */
  class DeleteConfirmation {
    /** The student the confirmation dialog is open for, if any. */
    var studentToDelete: Option<Student>
    /** The confirm button shows a spinner and is disabled while this holds. */
    var isDeleting: bool
    /** The uids handed to the delete flow, in order. */
    var deleteRequests: seq<string>
    /** The titles of the toasts shown, in order. */
    var toasts: seq<string>

    constructor ()
      ensures studentToDelete.None? && !isDeleting && deleteRequests == [] && toasts == []
    {
      studentToDelete := None;
      isDeleting := false;
      deleteRequests := [];
      toasts := [];
    }

    /** The row's delete button opens the dialog for that student. */
    method AskToDelete(student: Student)
      modifies this
      ensures studentToDelete == Some(student)
      ensures isDeleting == old(isDeleting) && deleteRequests == old(deleteRequests) && toasts == old(toasts)
    {
      studentToDelete := Some(student);
    }

    /** Closing the dialog forgets the student. */
    method Dismiss()
      modifies this
      ensures studentToDelete.None?
      ensures isDeleting == old(isDeleting) && deleteRequests == old(deleteRequests) && toasts == old(toasts)
    {
      studentToDelete := None;
    }

    /** `performDeleteStudent`, with the delete flow's success as an input. With no
        student selected nothing happens. Otherwise the flow is asked to delete that
        student, a toast reports the outcome, and whatever the outcome the dialog
        closes and the spinner stops. */
    method PerformDeleteStudent(flowSucceeded: bool)
      modifies this
      ensures old(studentToDelete).None? ==>
        studentToDelete == old(studentToDelete) && isDeleting == old(isDeleting)
        && deleteRequests == old(deleteRequests) && toasts == old(toasts)
      ensures old(studentToDelete).Some? ==>
        && studentToDelete.None? && !isDeleting
        && deleteRequests == old(deleteRequests) + [old(studentToDelete).value.id]
        && toasts == old(toasts) + [if flowSucceeded then "Student Deleted" else "Deletion Failed"]
    {
      if studentToDelete.None? {
        return;
      }
      isDeleting := true;
      deleteRequests := deleteRequests + [studentToDelete.value.id];
      if flowSucceeded {
        toasts := toasts + ["Student Deleted"];
      } else {
        toasts := toasts + ["Deletion Failed"];
      }
      isDeleting := false;
      studentToDelete := None;
    }
  }
}
