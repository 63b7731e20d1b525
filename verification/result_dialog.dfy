/** The academic-results dialog of one student
    (src/components/admin/result-dialog.tsx): the result form's schema, the
    documents written on add and on update (the form's subject is stored as
    `className`), the per-id delete and the form pre-fill for editing. */
module ResultDialog {
  import opened Wrappers
  import opened Records

  /** The form's values once the year is coerced; comments may be absent. */
  datatype ResultForm = ResultForm(
    subject: string,
    term: string,
    year: int,
    grade: string,
    comments: Option<string>)

  /** The grades the form offers. */
  const Grades: set<string> := {"A", "B", "C", "D", "F"}

  /** `resultSchema`: a non-empty subject, a listed term and grade, a year from 2000 on;
      comments are optional and unchecked. */
  predicate ResultSchemaAccepts(f: ResultForm) {
    && |f.subject| >= 1
    && f.term in Terms
    && f.year >= 2000
    && f.grade in Grades
  }

  /** Each rule of the schema on its own: changing one field of an accepted form keeps it
      accepted exactly when the new value meets that field's rule; comments are free. */
  lemma ResultSchemaRules(f: ResultForm)
    requires ResultSchemaAccepts(f)
    ensures forall v :: ResultSchemaAccepts(f.(subject := v)) <==> v != ""
    ensures forall t :: ResultSchemaAccepts(f.(term := t)) <==> t in Terms
    ensures forall y :: ResultSchemaAccepts(f.(year := y)) <==> y >= 2000
    ensures forall g :: ResultSchemaAccepts(f.(grade := g)) <==> g in Grades
    ensures forall c :: ResultSchemaAccepts(f.(comments := c))
  {
  }

  /** The form's defaults: no subject, first term, the current year, grade C and an
      empty (present) comment. */
  function DefaultResultForm(year: int): (f: ResultForm)
    ensures f.subject == "" && f.term == "1st" && f.year == year && f.grade == "C"
    ensures f.comments == Some("")
  {
    ResultForm("", "1st", year, "C", Some(""))
  }

  /** The defaults alone cannot be saved: a subject must be typed in first. */
  lemma DefaultResultFormNeedsSubject(year: int, subject: string)
    ensures !ResultSchemaAccepts(DefaultResultForm(year))
    ensures ResultSchemaAccepts(DefaultResultForm(year).(subject := subject)) <==> subject != "" && year >= 2000
  {
  }

  /** The values the edit button loads into the form: the stored `className` becomes
      the subject. */
  function EditFormOf(r: AcademicResult): (f: ResultForm)
    ensures f.subject == r.className
    ensures f.term == r.term && f.year == r.year && f.grade == r.grade && f.comments == r.comments
  {
    ResultForm(r.className, r.term, r.year, r.grade, r.comments)
  }

  /** The document `addDoc` creates: the dialog's student, the subject as `className`,
      the other form fields and the creation time. */
  function NewResult(id: string, studentId: string, f: ResultForm, now: int): (r: AcademicResult)
    ensures r.id == id && r.studentId == studentId && r.createdAt == now
    ensures r.className == f.subject
    ensures EditFormOf(r) == f
  {
    AcademicResult(id, studentId, f.subject, f.term, f.year, f.grade, f.comments, now)
  }

  /** The stored document after `updateDoc`: the subject (as `className`), term, year,
      grade and comments are overwritten; id, student and creation time are kept. */
  function UpdatedResult(stored: AcademicResult, f: ResultForm): (r: AcademicResult)
    ensures r.id == stored.id && r.studentId == stored.studentId && r.createdAt == stored.createdAt
    ensures r.className == f.subject
    ensures EditFormOf(r) == f
  {
    stored.(className := f.subject, term := f.term, year := f.year, grade := f.grade, comments := f.comments)
  }

  /** Opening a result for editing and saving the form unchanged leaves the document
      exactly as it was. */
  lemma ResubmitUnchangedResult(r: AcademicResult)
    ensures UpdatedResult(r, EditFormOf(r)) == r
  {
  }

  /** An update is determined by the form alone: two updates of the same document agree
      exactly when their forms do. */
  lemma UpdateDeterminedByForm(stored: AcademicResult, f: ResultForm, g: ResultForm)
    ensures UpdatedResult(stored, f) == UpdatedResult(stored, g) <==> f == g
  {
  }

  /** The dialog's state and the `academicResults` collection it writes to, keyed by
      document id. */
  class ResultEditor {
    /** The student the dialog was opened for. */
    const studentId: string
    /** What `form.reset()` with no argument restores: the form's initial values until an
        edit button's `form.reset(values)` replaces them with that result's values. */
    var defaults: ResultForm
    var results: map<string, AcademicResult>
    var isAdding: bool
    var editingResult: Option<AcademicResult>
    /** The values currently loaded in the form. */
    var form: ResultForm

    ghost predicate Valid()
      reads this
    {
      ResultsKeyedById(results)
    }

    constructor (studentId: string, year: int, results: map<string, AcademicResult>)
      requires ResultsKeyedById(results)
      ensures Valid()
      ensures this.studentId == studentId && this.results == results
      ensures defaults == DefaultResultForm(year) && form == defaults
      ensures !isAdding && editingResult.None?
    {
      this.studentId := studentId;
      this.defaults := DefaultResultForm(year);
      this.results := results;
      this.isAdding := false;
      this.editingResult := None;
      this.form := DefaultResultForm(year);
    }

    /** "Add New Result" opens the form. */
    method OpenAdd()
      modifies this
      ensures isAdding
      ensures results == old(results) && editingResult == old(editingResult) && form == old(form)
      ensures defaults == old(defaults)
    {
      isAdding := true;
    }

    /** The edit button remembers the result and loads its values into the form; the reset
        with values also makes them the values a later argument-less reset restores. */
    method StartEdit(result: AcademicResult)
      modifies this
      ensures editingResult == Some(result) && form == EditFormOf(result) && defaults == EditFormOf(result)
      ensures results == old(results) && isAdding == old(isAdding)
    {
      editingResult := Some(result);
      form := EditFormOf(result);
      defaults := form;
    }

    /** "Cancel" closes the form without touching the values loaded in it. */
    method Cancel()
      modifies this
      ensures !isAdding && editingResult.None?
      ensures results == old(results) && form == old(form) && defaults == old(defaults)
    {
      isAdding := false;
      editingResult := None;
    }

    /** Submitting the form. Values the schema rejects never reach `onSubmit`. Otherwise
        the result being edited is updated in place, or a new one is added under the
        generated id `newId`; `writeOk` says whether the store accepted the write (an
        update of a document that no longer exists fails as well). After a saved write
        the form closes and resets; after a failed one everything stays as it was. */
    method Submit(values: ResultForm, writeOk: bool, newId: string, now: int) returns (saved: bool)
      requires Valid()
      requires isAdding || editingResult.Some?
      requires newId !in results
      modifies this
      ensures Valid()
      ensures saved <==>
        ResultSchemaAccepts(values) && writeOk
        && (old(editingResult).Some? ==> old(editingResult).value.id in old(results))
      ensures saved && old(editingResult).None? ==>
        results == old(results)[newId := NewResult(newId, studentId, values, now)]
      ensures saved && old(editingResult).Some? ==>
        var id := old(editingResult).value.id;
        results == old(results)[id := UpdatedResult(old(results)[id], values)]
      ensures defaults == old(defaults)
      ensures saved ==> !isAdding && editingResult.None? && form == defaults
      ensures !saved ==>
        results == old(results) && isAdding == old(isAdding)
        && editingResult == old(editingResult) && form == old(form)
    {
      saved := false;
      if !ResultSchemaAccepts(values) {
        return;
      }
      if editingResult.Some? {
        var id := editingResult.value.id;
        if !writeOk || id !in results {
          return;
        }
        results := results[id := UpdatedResult(results[id], values)];
      } else {
        if !writeOk {
          return;
        }
        results := results[newId := NewResult(newId, studentId, values, now)];
      }
      saved := true;
      isAdding := false;
      editingResult := None;
      form := defaults;
    }

    /** `deleteResult(id)`: a declined confirmation or a failed write leaves the
        collection as it was; otherwise only the document `id` is gone. */
    method DeleteResult(id: string, confirmed: bool, writeOk: bool) returns (deleted: bool)
      requires Valid()
      modifies this
      ensures Valid()
      ensures deleted <==> confirmed && writeOk
      ensures results == if deleted then old(results) - {id} else old(results)
      ensures isAdding == old(isAdding) && editingResult == old(editingResult) && form == old(form)
      ensures defaults == old(defaults)
    {
      deleted := false;
      if !confirmed || !writeOk {
        return;
      }
      results := results - {id};
      deleted := true;
    }
  }

  /** Editing a stored result and saving the pre-filled form unchanged leaves the whole
      collection as it was. */
  lemma EditRoundTripKeepsCollection(results: map<string, AcademicResult>, id: string)
    requires id in results
    ensures results[id := UpdatedResult(results[id], EditFormOf(results[id]))] == results
  {
  }
}
