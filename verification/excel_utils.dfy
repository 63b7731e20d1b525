/** The row normalisation and validity filter of the results spreadsheet import
    (src/lib/excel-utils.ts, `parseResultsExcel`). The model starts from the rows
    the sheet reader produced: one map per row from column header to cell value.
    `parseInt` is a parameter that gives an integer or `None` for NaN. */
module ExcelUtils {
  import opened Wrappers
  import opened JsArray

  /** A cell as the sheet reader hands it over; a missing column is `Undefined`. */
  datatype Value = Undefined | Text(s: string) | Number(n: int) | Flag(b: bool)

  /** One sheet row: column header to cell. */
  type Row = map<string, Value>

  /** A normalised row; `year` is `None` when `parseInt` gave NaN. */
  datatype ResultRow = ResultRow(
    email: Value,
    subject: Value,
    grade: Value,
    term: Value,
    year: Option<int>,
    comments: Value)

  /** JavaScript truthiness: not undefined, not the empty string, not 0, not false. */
  predicate Truthy(v: Value) {
    match v
    case Undefined => false
    case Text(s) => s != ""
    case Number(n) => n != 0
    case Flag(b) => b
  }

  /** `row[header]`. */
  function Cell(row: Row, header: string): Value {
    if header in row then row[header] else Undefined
  }

  /** `a || b`. */
  function Or(a: Value, b: Value): (r: Value)
    ensures Truthy(a) ==> r == a
    ensures !Truthy(a) ==> r == b
    ensures Truthy(r) <==> Truthy(a) || Truthy(b)
  {
    if Truthy(a) then a else b
  }

  /** `row.Upper || row.lower`: the capitalised header wins when its cell is truthy. */
  function Lookup(row: Row, upper: string, lower: string): (r: Value)
    ensures Truthy(Cell(row, upper)) ==> r == Cell(row, upper)
    ensures !Truthy(Cell(row, upper)) ==> r == Cell(row, lower)
  {
    Or(Cell(row, upper), Cell(row, lower))
  }

  /** The object built for one row. */
  function Normalise(row: Row, parseInt: Value -> Option<int>): (r: ResultRow)
    ensures r.email == Lookup(row, "Email", "email")
    ensures r.subject == Lookup(row, "Subject", "subject")
    ensures r.grade == Lookup(row, "Grade", "grade")
    ensures r.term == Lookup(row, "Term", "term")
    ensures r.year == parseInt(Lookup(row, "Year", "year"))
    ensures r.comments != Undefined
    ensures Truthy(r.comments) || r.comments == Text("")
    ensures Truthy(Lookup(row, "Comments", "comments")) ==> r.comments == Lookup(row, "Comments", "comments")
    ensures !Truthy(Cell(row, "Comments")) && !Truthy(Cell(row, "comments")) ==> r.comments == Text("")
  {
    ResultRow(
      Lookup(row, "Email", "email"),
      Lookup(row, "Subject", "subject"),
      Lookup(row, "Grade", "grade"),
      Lookup(row, "Term", "term"),
      parseInt(Lookup(row, "Year", "year")),
      Or(Lookup(row, "Comments", "comments"), Text("")))
  }

  /** The basic validation: the four text fields are present and the year is a number.
      Only presence is checked; a grade or term outside the expected choices passes. */
  predicate Usable(r: ResultRow) {
    Truthy(r.email) && Truthy(r.subject) && Truthy(r.grade) && Truthy(r.term) && r.year.Some?
  }

  /** `results.filter(...)` over `json.map(...)`. */
  function ParseRows(rows: seq<Row>, parseInt: Value -> Option<int>): (out: seq<ResultRow>)
    ensures |out| <= |rows|
    ensures forall i :: 0 <= i < |out| ==> Usable(out[i])
  {
    Filter(Map(rows, row => Normalise(row, parseInt)), Usable)
  }

  /** The output keeps, in sheet order, exactly the normalised rows that pass the check,
      each as many times as it occurs (identical sheet rows are all kept). */
  lemma ParseRowsSelect(rows: seq<Row>, parseInt: Value -> Option<int>)
    ensures var mapped := Map(rows, row => Normalise(row, parseInt));
      && IsSubsequence(ParseRows(rows, parseInt), mapped)
      && (forall r :: r in ParseRows(rows, parseInt) <==> r in mapped && Usable(r))
      && forall r :: multiset(ParseRows(rows, parseInt))[r] == if Usable(r) then multiset(mapped)[r] else 0
  {
    var mapped := Map(rows, row => Normalise(row, parseInt));
    FilterIsSubsequence(mapped, Usable);
    forall r ensures r in Filter(mapped, Usable) <==> r in mapped && Usable(r) {
      FilterMembership(mapped, Usable, r);
    }
    forall r ensures multiset(Filter(mapped, Usable))[r] == if Usable(r) then multiset(mapped)[r] else 0 {
      FilterCount(mapped, Usable, r);
    }
  }

  /** A row is kept iff its e-mail, subject, grade and term cells (either spelling) are
      truthy and the year parses. */
  lemma RowKeptIff(row: Row, parseInt: Value -> Option<int>)
    ensures ParseRows([row], parseInt) == [Normalise(row, parseInt)] <==>
      && (Truthy(Cell(row, "Email")) || Truthy(Cell(row, "email")))
      && (Truthy(Cell(row, "Subject")) || Truthy(Cell(row, "subject")))
      && (Truthy(Cell(row, "Grade")) || Truthy(Cell(row, "grade")))
      && (Truthy(Cell(row, "Term")) || Truthy(Cell(row, "term")))
      && parseInt(Lookup(row, "Year", "year")).Some?
    ensures ParseRows([row], parseInt) == [] || ParseRows([row], parseInt) == [Normalise(row, parseInt)]
  {
  }

  /** The check is about presence only: a grade "Z" and a term "9th" are kept. */
  lemma GradeAndTermNotChecked(email: string, subject: string, parseInt: Value -> Option<int>)
    requires email != "" && subject != ""
    requires parseInt(Text("2024")).Some?
    ensures var row := map["Email" := Text(email), "Subject" := Text(subject), "Grade" := Text("Z"),
                           "Term" := Text("9th"), "Year" := Text("2024")];
            ParseRows([row], parseInt) == [Normalise(row, parseInt)]
  {
  }
}
