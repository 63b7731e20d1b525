/** The fee dialog of one student (src/components/admin/fee-dialog.tsx): the fee
    form's schema, the documents written on add and on update, the per-id
    delete, the form pre-fill for editing and the status badge of a fee row. */
module FeeDialog {
  import opened Wrappers
  import opened Records
  import opened StudentManagement

  /** The form's values once the numbers are coerced. */
  datatype FeeForm = FeeForm(
    term: string,
    session: string,
    amount: int,
    amountPaid: int,
    status: string,
    dueDate: string)

  /** `feeSchema`: a listed term and status, a non-empty session and due date, and
      amounts that are not negative. Nothing relates the amount paid to the amount. */
  predicate FeeSchemaAccepts(f: FeeForm) {
    && f.term in Terms
    && |f.session| >= 1
    && f.amount >= 0
    && f.amountPaid >= 0
    && f.status in FeeStatuses
    && |f.dueDate| >= 1
  }

  /** Each rule of the schema on its own: changing one field of an accepted form keeps it
      accepted exactly when the new value meets that field's rule. An accepted form never
      records a balance above the amount. */
  lemma FeeSchemaRules(f: FeeForm)
    requires FeeSchemaAccepts(f)
    ensures BalanceRemaining(f) <= f.amount
    ensures forall t :: FeeSchemaAccepts(f.(term := t)) <==> t in Terms
    ensures forall v :: FeeSchemaAccepts(f.(session := v)) <==> v != ""
    ensures forall a :: FeeSchemaAccepts(f.(amount := a)) <==> a >= 0
    ensures forall a :: FeeSchemaAccepts(f.(amountPaid := a)) <==> a >= 0
    ensures forall v :: FeeSchemaAccepts(f.(status := v)) <==> v in FeeStatuses
    ensures forall v :: FeeSchemaAccepts(f.(dueDate := v)) <==> v != ""
  {
  }

  /** An overpaid fee is a valid form: the schema never compares the two amounts. */
  lemma OverpaymentAccepted(f: FeeForm, paid: int)
    requires FeeSchemaAccepts(f) && paid > f.amount
    ensures FeeSchemaAccepts(f.(amountPaid := paid))
  {
  }

  /** The number a string of decimal digits denotes. */
  function DigitsValue(s: string): nat
    requires forall i :: 0 <= i < |s| ==> '0' <= s[i] <= '9'
  {
    if s == [] then 0 else DigitsValue(s[..|s| - 1]) * 10 + (s[|s| - 1] as int - '0' as int)
  }

  /** `${n}` for a natural number: its decimal digits, without leading zeros. */
  function Decimal(n: nat): (s: string)
    ensures |s| >= 1
    ensures forall i :: 0 <= i < |s| ==> '0' <= s[i] <= '9'
    ensures DigitsValue(s) == n
    ensures n > 0 ==> s[0] != '0'
    ensures n == 0 ==> s == "0"
  {
    var digit := ['0' + (n % 10) as char];
    if n < 10 then digit
    else
      var s := Decimal(n / 10) + digit;
      assert s[..|s| - 1] == Decimal(n / 10);
      s
  }

  /** The form's defaults: first term, the session "year/year+1", nothing owed or paid,
      status Pending, due today (`today` is the date part of the current ISO time). */
  function DefaultFeeForm(year: nat, today: string): (f: FeeForm)
    ensures f.term == "1st" && f.status == "Pending" && f.dueDate == today
    ensures f.amount == 0 && f.amountPaid == 0
    ensures var k := |Decimal(year)|;
      && k < |f.session| && f.session[k] == '/'
      && (forall i :: 0 <= i < |f.session| && i != k ==> '0' <= f.session[i] <= '9')
      && DigitsValue(f.session[..k]) == year && DigitsValue(f.session[k + 1..]) == year + 1
      && f.session[..k] == Decimal(year) && f.session[k + 1..] == Decimal(year + 1)
  {
    SlashJoin(Decimal(year), Decimal(year + 1));
    FeeForm("1st", Decimal(year) + "/" + Decimal(year + 1), 0, 0, "Pending", today)
  }

  /** Two digit strings joined by a slash split back at the slash. */
  lemma SlashJoin(a: string, b: string)
    requires forall i :: 0 <= i < |a| ==> '0' <= a[i] <= '9'
    requires forall i :: 0 <= i < |b| ==> '0' <= b[i] <= '9'
    ensures var s := a + "/" + b;
      && |a| < |s| && s[|a|] == '/' && s[..|a|] == a && s[|a| + 1..] == b
      && forall i :: 0 <= i < |s| && i != |a| ==> '0' <= s[i] <= '9'
  {
  }

  /** The defaults already satisfy the schema. */
  lemma DefaultFeeFormAccepted(year: nat, today: string)
    requires today != ""
    ensures FeeSchemaAccepts(DefaultFeeForm(year, today))
  {
  }

  /** `amount - amountPaid`, not clamped. */
  function BalanceRemaining(f: FeeForm): int {
    f.amount - f.amountPaid
  }

  /** A stored fee whose balance is its amount minus the amount paid. */
  predicate BalanceConsistent(r: FeeRecord) {
    r.amountPaid.Some? && r.balanceRemaining == r.amount - r.amountPaid.value
  }

  /** The values the edit button loads into the form; a missing amount paid becomes 0. */
  function EditFormOf(r: FeeRecord): (f: FeeForm)
    ensures f.term == r.term && f.session == r.session && f.amount == r.amount
    ensures f.status == r.status && f.dueDate == r.dueDate
    ensures r.amountPaid.None? ==> f.amountPaid == 0
    ensures r.amountPaid.Some? ==> f.amountPaid == r.amountPaid.value
  {
    FeeForm(r.term, r.session, r.amount, r.amountPaid.GetOr(0), r.status, r.dueDate)
  }

  /** The document `addDoc` creates: the form's values, the dialog's student, the
      balance and both timestamps. */
  function NewFee(id: string, studentId: string, f: FeeForm, now: int): (r: FeeRecord)
    ensures r.id == id && r.studentId == studentId
    ensures r.createdAt == now && r.updatedAt == now
    ensures EditFormOf(r) == f
    ensures BalanceConsistent(r)
    ensures r.balanceRemaining < 0 <==> f.amountPaid > f.amount
  {
    FeeRecord(id, studentId, f.term, f.session, f.amount, Some(f.amountPaid), f.status, f.dueDate,
              BalanceRemaining(f), now, now)
  }

  /** The stored document after `updateDoc`: the form's fields, the balance and the update
      time are overwritten; the id, the student and the creation time are kept. */
  function UpdatedFee(stored: FeeRecord, f: FeeForm, now: int): (r: FeeRecord)
    ensures r.id == stored.id && r.studentId == stored.studentId && r.createdAt == stored.createdAt
    ensures r.updatedAt == now
    ensures EditFormOf(r) == f
    ensures BalanceConsistent(r)
    ensures r.balanceRemaining < 0 <==> f.amountPaid > f.amount
  {
    stored.(term := f.term, session := f.session, amount := f.amount, amountPaid := Some(f.amountPaid),
            status := f.status, dueDate := f.dueDate, balanceRemaining := BalanceRemaining(f),
            updatedAt := now)
  }

  /** Opening a consistent fee for editing and saving it unchanged only moves its update time. */
  lemma ResubmitUnchangedFee(r: FeeRecord, now: int)
    requires BalanceConsistent(r)
    ensures UpdatedFee(r, EditFormOf(r), now) == r.(updatedAt := now)
  {
  }

  /** The badge of a row in the dialog's fee table: Paid and Pending as in the student
      table, anything else (Partial included) as a warning. */
  function FeeRowBadge(status: string): (b: BadgeVariant)
    ensures status in FeeStatuses ==> b == StatusBadge(Some(status))
    ensures status !in FeeStatuses ==> b == Warning && StatusBadge(Some(status)) == Outline
  {
    if status == "Paid" then Success
    else if status == "Pending" then Destructive
    else Warning
  }

  /** The dialog's state and the `fees` collection it writes to, keyed by document id. */
  class FeeEditor {
    /** The student the dialog was opened for. */
    const studentId: string
    /** What `form.reset()` with no argument restores: the form's initial values until an
        edit button's `form.reset(values)` replaces them with that fee's values. */
    var defaults: FeeForm
    var fees: map<string, FeeRecord>
    var isAdding: bool
    var editingFee: Option<FeeRecord>
    /** The values currently loaded in the form. */
    var form: FeeForm

    ghost predicate Valid()
      reads this
    {
      FeesKeyedById(fees)
    }

    constructor (studentId: string, year: nat, today: string, fees: map<string, FeeRecord>)
      requires FeesKeyedById(fees)
      ensures Valid()
      ensures this.studentId == studentId && this.fees == fees
      ensures defaults == DefaultFeeForm(year, today) && form == defaults
      ensures !isAdding && editingFee.None?
    {
      this.studentId := studentId;
      this.defaults := DefaultFeeForm(year, today);
      this.fees := fees;
      this.isAdding := false;
      this.editingFee := None;
      this.form := DefaultFeeForm(year, today);
    }

    /** "Add Fee Record" opens the empty form. */
    method OpenAdd()
      modifies this
      ensures isAdding
      ensures fees == old(fees) && editingFee == old(editingFee) && form == old(form) && defaults == old(defaults)
    {
      isAdding := true;
    }

    /** The edit button remembers the fee and loads its values into the form; the reset
        with values also makes them the values a later argument-less reset restores. */
    method StartEdit(fee: FeeRecord)
      modifies this
      ensures editingFee == Some(fee) && form == EditFormOf(fee) && defaults == EditFormOf(fee)
      ensures fees == old(fees) && isAdding == old(isAdding)
    {
      editingFee := Some(fee);
      form := EditFormOf(fee);
      defaults := form;
    }

    /** "Cancel" closes the form without touching the values loaded in it. */
    method Cancel()
      modifies this
      ensures !isAdding && editingFee.None?
      ensures fees == old(fees) && form == old(form) && defaults == old(defaults)
    {
      isAdding := false;
      editingFee := None;
    }

    /** Submitting the form. Values the schema rejects never reach `onSubmit`. Otherwise
        the fee being edited is updated in place, or a new fee is added under the
        generated id `newId`; `writeOk` says whether the store accepted the write (an
        update of a document that no longer exists fails as well). After a saved write
        the form closes and resets; after a failed one everything stays as it was. */
    method Submit(values: FeeForm, writeOk: bool, newId: string, now: int) returns (saved: bool)
      requires Valid()
      requires isAdding || editingFee.Some?
      requires newId !in fees
      modifies this
      ensures Valid()
      ensures saved <==>
        FeeSchemaAccepts(values) && writeOk
        && (old(editingFee).Some? ==> old(editingFee).value.id in old(fees))
      ensures saved && old(editingFee).None? ==>
        fees == old(fees)[newId := NewFee(newId, studentId, values, now)]
      ensures saved && old(editingFee).Some? ==>
        var id := old(editingFee).value.id;
        fees == old(fees)[id := UpdatedFee(old(fees)[id], values, now)]
      ensures defaults == old(defaults)
      ensures saved ==> !isAdding && editingFee.None? && form == defaults
      ensures !saved ==>
        fees == old(fees) && isAdding == old(isAdding) && editingFee == old(editingFee) && form == old(form)
    {
      saved := false;
      if !FeeSchemaAccepts(values) {
        return;
      }
      if editingFee.Some? {
        var id := editingFee.value.id;
        if !writeOk || id !in fees {
          return;
        }
        fees := fees[id := UpdatedFee(fees[id], values, now)];
      } else {
        if !writeOk {
          return;
        }
        fees := fees[newId := NewFee(newId, studentId, values, now)];
      }
      saved := true;
      isAdding := false;
      editingFee := None;
      form := defaults;
    }

    /** `deleteFee(id)`: a declined confirmation or a failed write leaves the collection
        as it was; otherwise only the document `id` is gone. Deleting an id that is not
        there succeeds and changes nothing. */
    method DeleteFee(id: string, confirmed: bool, writeOk: bool) returns (deleted: bool)
      requires Valid()
      modifies this
      ensures Valid()
      ensures deleted <==> confirmed && writeOk
      ensures fees == if deleted then old(fees) - {id} else old(fees)
      ensures isAdding == old(isAdding) && editingFee == old(editingFee) && form == old(form)
      ensures defaults == old(defaults)
    {
      deleted := false;
      if !confirmed || !writeOk {
        return;
      }
      fees := fees - {id};
      deleted := true;
    }
  }

  /** Saving an edit changes only the edited fee, keeps its student and creation time,
      and leaves every other fee as it was. */
  lemma UpdateTouchesOnlyEdited(fees: map<string, FeeRecord>, id: string, values: FeeForm, now: int)
    requires id in fees
    ensures var after := fees[id := UpdatedFee(fees[id], values, now)];
      && after.Keys == fees.Keys
      && after[id].studentId == fees[id].studentId && after[id].createdAt == fees[id].createdAt
      && forall k | k in fees && k != id :: after[k] == fees[k]
  {
  }
}
