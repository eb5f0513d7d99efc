/** The admission record and the form it is built from (src/App.tsx and the
    FormData interface of src/client/SubmittedDetails.tsx). */
module Records {

  datatype Option<T> = None | Some(value: T)

  /** The eleven text fields of the form. `Department` is the source's `class`
      field (the requested department: CSE, ECE, EEE, CIVIL, MECH or MBA),
      renamed because `class` is a Dafny keyword. */
  datatype Field =
    | FirstName | LastName | Department | BirthDate
    | ParentFirstName | ParentLastName | StreetAddress
    | City | Country | Email | Signature

  datatype Form = Form(
    firstName: string,
    lastName: string,
    department: string,
    birthDate: string,
    parentFirstName: string,
    parentLastName: string,
    streetAddress: string,
    city: string,
    country: string,
    email: string,
    signature: string)

  /** A stored submission: the form fields plus the identifier (`Date.now()` at
      submission) and the creation time, as milliseconds since the epoch. */
  datatype Submission = Submission(id: int, fields: Form, submittedAt: int)

  function FieldValue(f: Form, fld: Field): (v: string)
  {
    match fld
    case FirstName => f.firstName
    case LastName => f.lastName
    case Department => f.department
    case BirthDate => f.birthDate
    case ParentFirstName => f.parentFirstName
    case ParentLastName => f.parentLastName
    case StreetAddress => f.streetAddress
    case City => f.city
    case Country => f.country
    case Email => f.email
    case Signature => f.signature
  }

  /** `{ ...form, [field]: value }`: one field replaced, the others kept. */
  function SetField(f: Form, fld: Field, v: string): (g: Form)
    ensures FieldValue(g, fld) == v
    ensures forall other :: other != fld ==> FieldValue(g, other) == FieldValue(f, other)
  {
    match fld
    case FirstName => f.(firstName := v)
    case LastName => f.(lastName := v)
    case Department => f.(department := v)
    case BirthDate => f.(birthDate := v)
    case ParentFirstName => f.(parentFirstName := v)
    case ParentLastName => f.(parentLastName := v)
    case StreetAddress => f.(streetAddress := v)
    case City => f.(city := v)
    case Country => f.(country := v)
    case Email => f.(email := v)
    case Signature => f.(signature := v)
  }

  /** The initial and the reset form state: every field the empty string. */
  function EmptyForm(): (f: Form)
    ensures forall fld :: FieldValue(f, fld) == ""
  {
    Form("", "", "", "", "", "", "", "", "", "", "")
  }

  /** The required-field check of handleSubmit: every field but the signature
      must be non-empty (an empty JavaScript string is falsy). */
  predicate Complete(f: Form): (ok: bool)
    ensures ok <==> forall fld :: fld != Signature ==> FieldValue(f, fld) != ""
  {
    assert FieldValue(f, FirstName) == f.firstName && FieldValue(f, LastName) == f.lastName;
    assert FieldValue(f, Department) == f.department && FieldValue(f, BirthDate) == f.birthDate;
    assert FieldValue(f, ParentFirstName) == f.parentFirstName;
    assert FieldValue(f, ParentLastName) == f.parentLastName;
    assert FieldValue(f, StreetAddress) == f.streetAddress && FieldValue(f, City) == f.city;
    assert FieldValue(f, Country) == f.country && FieldValue(f, Email) == f.email;
    f.firstName != "" && f.lastName != "" && f.department != "" && f.birthDate != "" &&
    f.parentFirstName != "" && f.parentLastName != "" && f.streetAddress != "" &&
    f.city != "" && f.country != "" && f.email != ""
  }
}
