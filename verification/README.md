# Admission form: submission store, form controller and list viewer

A Dafny model of the client-side core of a college admission-form
application. The form component (`src/App.tsx`) checks that ten of its
eleven text fields are non-empty (the signature is optional), builds a
submission record and appends it to one collection kept under the
browser-local storage key `admissionFormData`. The viewer
component (`src/client/SubmittedDetails.tsx`) loads that collection, shows
it newest first, and deletes, edits or clears records. After a delete or an
edit it writes the displayed list back to storage in full; clearing removes
the key.

Modules, one per concern:

- `Records` (`records.dfy`): the form fields, the `Form` and `Submission`
  records, the field getter and setter, the empty form and the
  required-field check.
- `Storage` (`storage.dfy`): the storage slot shared by both components, as
  a `Store` object whose `slot` is what reading and JSON-parsing the key
  gives: absent, unparseable, not an array, or a saved collection.
- `SubmissionList` (`submission_list.dfy`): the pure list operations behind
  the viewer. These are the stable newest-first sort, the delete filter and
  the edit map, with their lemmas.
- `App` (`app.dfy`): the form component as a class holding the form state,
  with `Submit` modelling `handleSubmit`.
- `Details` (`submitted_details.dfy`): the viewer as a class holding the
  displayed list and the edit state (`editingId`, `editFormData`), with one
  method per handler.
- `Flow` (`flow.dfy`): what the viewer shows after the form has written.

Clock readings (`Date.now()`, the ISO creation time) and the answer to
`window.confirm` are parameters. The creation time is an integer number of
milliseconds. Whether `localStorage.setItem` succeeds in `handleSubmit` is a
parameter too, because the source catches that failure.

Two behaviours of the code are worth stating outright:

- Delete and edit write back the displayed, newest-first list. After a
  delete the stored order is therefore newest first rather than insertion
  order (`Details.SubmittedDetails.DeleteSubmission`,
  `Details.ReloadAfterDelete`). After an edit it is too, provided the buffer
  has the creation time of every record it replaces
  (`SubmissionList.ReplaceIdNewestFirst`). A buffer taken from a record and
  changed only in its text fields has that time, unless another record
  shares its identifier with a different time.
- The delete filter removes every record carrying the identifier, and the
  edit map replaces every such record. Exactly one record is removed only
  when identifiers are unique (`SubmissionList.DeleteRemovesOne`).

## Model

| member | source | states |
|---|---|---|
| `Records.SetField` | src/client/SubmittedDetails.tsx:89-92 | the edited field takes the new value and every other field keeps its value |
| `Records.EmptyForm` | src/App.tsx:67-79 | every one of the eleven fields is the empty string |
| `Records.Complete` | src/App.tsx:30-35 | true exactly when every field other than the signature is non-empty |
| `SubmissionList.SortNewestFirst` | src/client/SubmittedDetails.tsx:37-39 | the sorted list is a permutation of the stored list |
| `SubmissionList.SortIsNewestFirst` | src/client/SubmittedDetails.tsx:36-39 | the sorted list has non-increasing creation times |
| `SubmissionList.SortIsStable` | src/client/SubmittedDetails.tsx:37-39 | records with equal creation times keep their stored relative order |
| `SubmissionList.SortKeepsNewestFirst` | src/client/SubmittedDetails.tsx:37-39 | sorting a list that is already newest first returns it unchanged |
| `SubmissionList.SortIdempotent` | src/client/SubmittedDetails.tsx:37-39 | sorting twice gives the same list as sorting once |
| `SubmissionList.RemoveId` | src/client/SubmittedDetails.tsx:60 | a record is kept exactly when it was present and its id differs from the deleted id |
| `SubmissionList.RemoveIdAppend` | src/client/SubmittedDetails.tsx:60 | the filter distributes over concatenation, so kept records stay in their relative order |
| `SubmissionList.RemoveAbsentId` | src/client/SubmittedDetails.tsx:60 | deleting an id no record carries leaves the list unchanged |
| `SubmissionList.RemoveIdLength` | src/client/SubmittedDetails.tsx:60 | the result is shorter by exactly the number of records carrying the id |
| `SubmissionList.DeleteRemovesOne` | src/client/SubmittedDetails.tsx:58-63 | with unique ids, deleting a present id removes exactly one record |
| `SubmissionList.RemoveIdNewestFirst` | src/client/SubmittedDetails.tsx:60-62 | deleting from a newest-first list keeps it newest first |
| `SubmissionList.ReplaceId` | src/client/SubmittedDetails.tsx:74-76 | same length; each position holds the buffer if its record carried the id, else the old record |
| `SubmissionList.ReplaceIdNewestFirst` | src/client/SubmittedDetails.tsx:74-78 | saving an edit keeps a newest-first list newest first when the buffer has the time of every record it replaces |
| `SubmissionList.ReplaceAbsentId` | src/client/SubmittedDetails.tsx:74-76 | saving an edit for an id no record carries leaves the list unchanged |
| `SubmissionList.ReplaceOnlyTouchesId` | src/client/SubmittedDetails.tsx:74-76 | apart from the records carrying the id, the edited list equals the original |
| `SubmissionList.ReplaceKeepsUnique` | src/client/SubmittedDetails.tsx:71-81 | with unique ids and a buffer keeping its id, ids stay unique and the one record with that id is the buffer |
| `App.AfterSubmit` | src/App.tsx:46-64 | the written collection is the prior one (`App.PriorSubmissions`: the stored array when the slot holds one, the empty collection when it is absent, unparseable or not an array) with the new record appended; it is the new record alone when the slot held no array |
| `App.SubmitKeepsIdsUnique` | src/App.tsx:39-43 | a new record whose id differs from every stored one keeps the ids unique |
| `App.SchoolAdmissionForm.constructor` | src/App.tsx:12-24 | the form starts with every field empty |
| `App.SchoolAdmissionForm.Change` | src/App.tsx:113 | an input change replaces that one field of the form |
| `App.SchoolAdmissionForm.Submit` | src/App.tsx:26-86 | rejects an incomplete form and changes nothing; otherwise writes the prior collection plus the record of the form, id and time, then resets the form; a failed write changes nothing |
| `Details.LoadedView` | src/client/SubmittedDetails.tsx:31-45 | absent slot: list unchanged; bad data: empty list; saved array: a newest-first, stable permutation of it |
| `Details.ReloadAfterDelete` | src/client/SubmittedDetails.tsx:58-63 | after a delete from a newest-first list, loading again shows exactly the displayed list |
| `Details.SubmittedDetails.constructor` | src/client/SubmittedDetails.tsx:26-28 | empty list and no record being edited |
| `Details.SubmittedDetails.Load` | src/client/SubmittedDetails.tsx:30-49 | the list becomes the loaded view of the slot; the edit state is untouched |
| `Details.SubmittedDetails.ClearData` | src/client/SubmittedDetails.tsx:51-56 | confirmed: slot absent and list empty; unconfirmed: nothing changes |
| `Details.SubmittedDetails.DeleteSubmission` | src/client/SubmittedDetails.tsx:58-64 | confirmed: the list is filtered by id and the slot holds the list; unconfirmed: nothing changes |
| `Details.SubmittedDetails.EditClick` | src/client/SubmittedDetails.tsx:66-69 | editing id is the record's id and the buffer is the record |
| `Details.SubmittedDetails.EditSubmit` | src/client/SubmittedDetails.tsx:71-82 | no buffer: nothing changes; else every record with the id becomes the buffer, the slot holds the list, and edit mode ends |
| `Details.SubmittedDetails.EditCancel` | src/client/SubmittedDetails.tsx:84-87 | editing id and buffer are both cleared and the list is untouched |
| `Details.SubmittedDetails.EditChange` | src/client/SubmittedDetails.tsx:89-92 | no buffer: nothing changes; else only the named field of the buffer changes |
| `Flow.SubmitThenLoad` | src/App.tsx:61-64 | after a submit, loading shows the prior records plus the new one, and shows the new one first when it is the newest |

## Left out

- Rendering, styling, icons, the UI components and client-side routing
  (`src/main.tsx`): presentation only.
- `window.confirm`, `alert` and `console.error`: browser side effects. The
  confirmation answer is a parameter.
- `Date.now()`, `toISOString()` and parsing dates back with
  `new Date(...).getTime()`: clock reads and date strings. The id and the
  creation time are integer parameters. A creation time that does not parse
  as a date gives the comparator NaN, which is not modelled.
- `JSON.parse` / `JSON.stringify` and `localStorage`: foreign APIs. The
  slot records only what parsing yields, and a written collection is assumed
  to parse back to the same records. Stored arrays whose elements are not
  submission-shaped are not modelled. A `localStorage.getItem` that throws
  is not modelled: the form would show its error alert and change nothing,
  and the viewer would show the empty list, as it does for `Unparseable`.
- `Details.SubmittedDetails.DeleteSubmission`: does not model
  `localStorage.setItem` throwing there. The handler does not catch it, so
  the model assumes the write succeeds. The same holds for `EditSubmit`.
- `Details.SubmittedDetails.EditChange`: the source's field parameter may
  name any key of the record, but every caller passes one of the eleven text
  fields, so `id` and `submittedAt` are not editable in the model.
- The sort is modelled as a pure function, not as an in-place sort of the
  parsed array. The parsed array is a fresh value that nothing else holds.
- `src/client/ServerSubmittedDetails.tsx`: an asynchronous fetch with
  loading and error state. Its only logic is the same newest-first sort.
- `server.js`: HTTP plumbing. Its handler reads `localStorage`, which does
  not exist in Node, so it can only reach the error response.
- Races between two browser tabs writing the same key: the model is
  sequential, with last-writer-wins left implicit.
