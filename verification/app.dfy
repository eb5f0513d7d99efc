/** The admission form component (src/App.tsx): the form state and
    handleSubmit, which validates, appends a record to the stored collection
    and resets the form. */
module App {
  import opened Records
  import opened Storage
  import opened SubmissionList

  datatype SubmitOutcome =
    | MissingRequired              // the "fill in all required fields" alert
    | Submitted(record: Submission) // the "submitted successfully" alert
    | SaveFailed                    // the catch branch: the write threw

  /** The collection handleSubmit appends to: the stored array, or the empty
      collection when the slot is absent, does not parse or is not an array. */
  function PriorSubmissions(slot: Slot): (prior: seq<Submission>)
  {
    match slot
    case Saved(records) => records
    case Absent => []
    case Unparseable => []
    case NotAnArray => []
  }

  /** The collection a successful submit writes back. */
  function AfterSubmit(slot: Slot, rec: Submission): (stored: seq<Submission>)
    ensures |stored| == |PriorSubmissions(slot)| + 1
    ensures stored[..|stored| - 1] == PriorSubmissions(slot)
    ensures stored[|stored| - 1] == rec
    ensures slot.Saved? ==> stored == slot.records + [rec]
    ensures !slot.Saved? ==> stored == [rec]
  {
    PriorSubmissions(slot) + [rec]
  }

  /** A record whose identifier differs from every stored one (for instance
      a clock reading later than all earlier ones) keeps identifiers unique. */
  lemma SubmitKeepsIdsUnique(slot: Slot, rec: Submission)
    requires UniqueIds(PriorSubmissions(slot))
    requires forall x :: x in PriorSubmissions(slot) ==> x.id != rec.id
    ensures UniqueIds(AfterSubmit(slot, rec))
  {
  }

  class SchoolAdmissionForm {
    const store: Store
    var form: Form

    constructor(store: Store)
      ensures this.store == store && form == EmptyForm()
    {
      this.store := store;
      form := EmptyForm();
    }

    /** The input handlers: `setFormData({ ...formData, [field]: value })`. */
    method Change(fld: Field, value: string)
      modifies this
      ensures form == SetField(old(form), fld, value)
    {
      form := SetField(form, fld, value);
    }

    /** handleSubmit. `id` and `submittedAt` are the clock readings of
        `Date.now()` and `new Date().toISOString()`; `storageAccepts` says
        whether `localStorage.setItem` succeeds (it throws, for instance,
        when the storage quota is exceeded). */
    method Submit(id: int, submittedAt: int, storageAccepts: bool) returns (outcome: SubmitOutcome)
      modifies this, store
      ensures outcome.MissingRequired? <==> !Complete(old(form))
      ensures outcome.SaveFailed? <==> Complete(old(form)) && !storageAccepts
      ensures outcome.Submitted? ==> outcome.record == Submission(id, old(form), submittedAt)
      ensures outcome.Submitted? ==>
        store.slot == Saved(AfterSubmit(old(store.slot), outcome.record)) && form == EmptyForm()
      ensures !outcome.Submitted? ==> store.slot == old(store.slot) && form == old(form)
    {
      if !Complete(form) {
        return MissingRequired;
      }
      var newSubmission := Submission(id, form, submittedAt);
      var submissions: seq<Submission> := [];
      match store.slot {
        case Saved(records) =>
          submissions := records;
        case Absent =>
        case Unparseable =>
          submissions := [];
        case NotAnArray =>
          submissions := [];
      }
      submissions := submissions + [newSubmission];
      if !storageAccepts {
        return SaveFailed;
      }
      store.slot := Saved(submissions);
      form := EmptyForm();
      outcome := Submitted(newSubmission);
    }
  }
}
