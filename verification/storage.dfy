/** The one browser-local storage slot, key 'admissionFormData', shared by the
    form and the viewer. */
module Storage {
  import opened Records

  /** What reading the slot and JSON-parsing it yields. Writing a collection
      stores its JSON text, which parses back to the same records, so a written
      slot is `Saved(records)`. */
  datatype Slot =
    | Absent                          // getItem gives null or "" (both falsy)
    | Unparseable                     // JSON.parse throws
    | NotAnArray                      // parses, but to a non-array value
    | Saved(records: seq<Submission>) // parses to an array of submissions

  class Store {
    var slot: Slot

    constructor(initial: Slot)
      ensures slot == initial
    {
      slot := initial;
    }
  }
}
