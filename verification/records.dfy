/** The stored documents the admin console reads and writes. Only the fields
    the modelled code touches are kept. Timestamps written with the server
    clock are plain integers. */
module Records {
  import opened Wrappers

  /** A document of the `students` collection. */
  datatype Student = Student(id: string, firstName: string, lastName: string, classId: string)

  /** A document of the `fees` collection; `amountPaid` may be missing on older documents. */
  datatype FeeRecord = FeeRecord(
    id: string,
    studentId: string,
    term: string,
    session: string,
    amount: int,
    amountPaid: Option<int>,
    status: string,
    dueDate: string,
    balanceRemaining: int,
    createdAt: int,
    updatedAt: int)

  /** A document of the `academicResults` collection; the subject is kept in `className`. */
  datatype AcademicResult = AcademicResult(
    id: string,
    studentId: string,
    className: string,
    term: string,
    year: int,
    grade: string,
    comments: Option<string>,
    createdAt: int)

  /** The choices both dialogs offer for a term. */
  const Terms: set<string> := {"1st", "2nd", "3rd"}

  /** The fee statuses the fee form offers. */
  const FeeStatuses: set<string> := {"Paid", "Pending", "Partial"}

  /** A collection keyed by document id, each document carrying its own id. */
  ghost predicate FeesKeyedById(fees: map<string, FeeRecord>) {
    forall id | id in fees :: fees[id].id == id
  }

  ghost predicate ResultsKeyedById(results: map<string, AcademicResult>) {
    forall id | id in results :: results[id].id == id
  }
}
