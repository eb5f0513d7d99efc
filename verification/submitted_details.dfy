/** The local list viewer (src/client/SubmittedDetails.tsx): it loads the
    stored collection newest first and deletes, edits and clears records,
    writing the displayed list back to storage in full after each change. */
module Details {
  import opened Records
  import opened Storage
  import opened SubmissionList

  /** The list loadSubmissions leaves on display, given the slot and the list
      displayed before: an absent slot changes nothing, a stored array is
      shown sorted newest first, and anything else (a parse error, or a value
      without an array sort) is caught and shown as the empty list. */
  function LoadedView(slot: Slot, current: seq<Submission>): (view: seq<Submission>)
    ensures slot.Absent? ==> view == current
    ensures (slot.Unparseable? || slot.NotAnArray?) ==> view == []
    ensures slot.Saved? ==> multiset(view) == multiset(slot.records) && NewestFirst(view)
    ensures slot.Saved? ==> forall t :: AtTime(view, t) == AtTime(slot.records, t)
  {
    match slot
    case Absent => current
    case Unparseable => []
    case NotAnArray => []
    case Saved(records) =>
      SortIsNewestFirst(records);
      assert forall t :: AtTime(SortNewestFirst(records), t) == AtTime(records, t) by {
        forall t ensures AtTime(SortNewestFirst(records), t) == AtTime(records, t) {
          SortIsStable(records, t);
        }
      }
      SortNewestFirst(records)
  }

  /** Reloading after a delete shows exactly the list that was displayed:
      the viewer writes back its newest-first list, and sorting that list
      again changes nothing. */
  lemma ReloadAfterDelete(view: seq<Submission>, id: int, current: seq<Submission>)
    requires NewestFirst(view)
    ensures LoadedView(Saved(RemoveId(view, id)), current) == RemoveId(view, id)
  {
    RemoveIdNewestFirst(view, id);
    SortKeepsNewestFirst(RemoveId(view, id));
  }

  class SubmittedDetails {
    const store: Store
    var submissions: seq<Submission>
    var editingId: Option<int>
    var editFormData: Option<Submission>

    /** The edit mode: either nothing is being edited, or the buffer is a
        record carrying the identifier being edited. */
    ghost predicate EditState()
      reads this
    {
      match editingId
      case None => editFormData == None
      case Some(id) => editFormData.Some? && editFormData.value.id == id
    }

    /** The displayed list holds exactly the stored records. */
    ghost predicate InSync()
      reads this, store
    {
      match store.slot
      case Saved(records) => multiset(submissions) == multiset(records)
      case Absent => submissions == []
      case Unparseable => submissions == []
      case NotAnArray => submissions == []
    }

    constructor(store: Store)
      ensures this.store == store
      ensures submissions == [] && editingId == None && editFormData == None
      ensures EditState()
    {
      this.store := store;
      submissions := [];
      editingId := None;
      editFormData := None;
    }

    /** loadSubmissions, run once when the component mounts. */
    method Load()
      modifies this
      ensures submissions == LoadedView(store.slot, old(submissions))
      ensures editingId == old(editingId) && editFormData == old(editFormData)
      ensures old(submissions) == [] || !store.slot.Absent? ==> InSync()
    {
      match store.slot {
        case Absent =>
        case Unparseable =>
          submissions := [];
        case NotAnArray =>
          submissions := [];
        case Saved(records) =>
          submissions := SortNewestFirst(records);
      }
    }

    /** handleClearData; `confirmed` is the answer to window.confirm. */
    method ClearData(confirmed: bool)
      modifies this, store
      ensures confirmed ==> store.slot == Absent && submissions == []
      ensures !confirmed ==> store.slot == old(store.slot) && submissions == old(submissions)
      ensures editingId == old(editingId) && editFormData == old(editFormData)
      ensures confirmed || old(InSync()) ==> InSync()
    {
      if confirmed {
        store.slot := Absent;
        submissions := [];
      }
    }

    /** handleDeleteSubmission; `confirmed` is the answer to window.confirm. */
    method DeleteSubmission(id: int, confirmed: bool)
      modifies this, store
      ensures confirmed ==>
        submissions == RemoveId(old(submissions), id) && store.slot == Saved(submissions)
      ensures !confirmed ==> store.slot == old(store.slot) && submissions == old(submissions)
      ensures editingId == old(editingId) && editFormData == old(editFormData)
      ensures confirmed || old(InSync()) ==> InSync()
    {
      if confirmed {
        var updatedSubmissions := RemoveId(submissions, id);
        store.slot := Saved(updatedSubmissions);
        submissions := updatedSubmissions;
      }
    }

    /** handleEditClick: start editing a displayed record. */
    method EditClick(submission: Submission)
      modifies this
      ensures editingId == Some(submission.id) && editFormData == Some(submission)
      ensures submissions == old(submissions)
      ensures EditState()
    {
      editingId := Some(submission.id);
      editFormData := Some(submission);
    }

    /** handleEditSubmit: replace every record carrying `id` by the buffer,
        write the list back, and leave edit mode; nothing at all happens when
        there is no buffer. */
    method EditSubmit(id: int)
      modifies this, store
      ensures old(editFormData).None? ==>
        store.slot == old(store.slot) && submissions == old(submissions) &&
        editingId == old(editingId) && editFormData == old(editFormData)
      ensures old(editFormData).Some? ==>
        submissions == ReplaceId(old(submissions), id, old(editFormData).value) &&
        store.slot == Saved(submissions) &&
        editingId == None && editFormData == None
      ensures old(editFormData).Some? ==> InSync() && EditState()
      ensures old(InSync()) ==> InSync()
      ensures old(EditState()) ==> EditState()
    {
      if editFormData.None? {
        return;
      }
      var updatedSubmissions := ReplaceId(submissions, id, editFormData.value);
      store.slot := Saved(updatedSubmissions);
      submissions := updatedSubmissions;
      editingId := None;
      editFormData := None;
    }

    /** handleEditCancel: leave edit mode without saving. */
    method EditCancel()
      modifies this
      ensures editingId == None && editFormData == None
      ensures submissions == old(submissions)
      ensures EditState()
    {
      editingId := None;
      editFormData := None;
    }

    /** handleEditChange: change one field of the buffer; nothing happens when
        there is no buffer. */
    method EditChange(fld: Field, value: string)
      modifies this
      ensures old(editFormData).None? ==> editFormData == None
      ensures old(editFormData).Some? ==>
        editFormData == Some(old(editFormData).value.(fields := SetField(old(editFormData).value.fields, fld, value)))
      ensures editingId == old(editingId) && submissions == old(submissions)
      ensures old(EditState()) ==> EditState()
    {
      if editFormData.None? {
        return;
      }
      var buffer := editFormData.value;
      editFormData := Some(buffer.(fields := SetField(buffer.fields, fld, value)));
    }
  }
}
