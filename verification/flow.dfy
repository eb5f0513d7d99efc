/** What the viewer shows after the form has written to the shared slot. */
module Flow {
  import opened Records
  import opened Storage
  import opened SubmissionList
  import App
  import Details

  /** After a successful submit, loading the viewer shows the earlier
      records plus the new one, and the new one first when it is newer than
      every earlier record. */
  lemma SubmitThenLoad(slot: Slot, rec: Submission, current: seq<Submission>)
    ensures multiset(Details.LoadedView(Saved(App.AfterSubmit(slot, rec)), current)) ==
            multiset(App.PriorSubmissions(slot)) + multiset{rec}
    ensures (forall x :: x in App.PriorSubmissions(slot) ==> x.submittedAt < rec.submittedAt) ==>
            Details.LoadedView(Saved(App.AfterSubmit(slot, rec)), current)[0] == rec
  {
    var prior := App.PriorSubmissions(slot);
    var view := Details.LoadedView(Saved(App.AfterSubmit(slot, rec)), current);
    assert App.AfterSubmit(slot, rec) == prior + [rec];
    assert rec in multiset(view);
    if forall x :: x in prior ==> x.submittedAt < rec.submittedAt {
      var k :| 0 <= k < |view| && view[k] == rec;
      assert view[0].submittedAt >= rec.submittedAt;
      assert view[0] in multiset(prior + [rec]);
    }
  }
}
