/**
 * The add-doctor dialog (src/components/admin/AddDoctorDialog.tsx): the
 * field rules of its form, the specialty choices, and the submission
 * sequence that creates the account, promotes it to doctor, resolves the
 * specialty (an id of a fetched specialty, or a name to upsert) and
 * inserts the doctor row, stopping quietly when a table is missing.
 *
 * The backend's answers are parameters; e-mail syntax is checked by the
 * form library and enters as a flag.
 */
module AddDoctor {
  import opened Common

  /** The form's values. */
  datatype Values = Values(
    email: string, password: string, firstName: string, lastName: string, otherName: Option<string>,
    phone: string, gender: Option<string>, specialtyId: string, licenseNumber: string,
    yearsOfExperience: string, consultationFee: string)

  /** The fields that carry a rule. */
  datatype Field = EmailField | PasswordField | FirstNameField | LastNameField | PhoneField
                 | SpecialtyField | LicenseField | ExperienceField | FeeField

  /** The message the form shows under a field that breaks its rule. */
  function Message(f: Field): string
  {
    match f
    case EmailField => "Invalid email address"
    case PasswordField => "Password must be at least 6 characters"
    case FirstNameField => "First name must be at least 2 characters"
    case LastNameField => "Last name must be at least 2 characters"
    case PhoneField => "Phone number must be at least 10 characters"
    case SpecialtyField => "Please select a specialty"
    case LicenseField => "License number is required"
    case ExperienceField => "Years of experience is required"
    case FeeField => "Consultation fee is required"
  }

  function Flag(ok: bool, f: Field): seq<Field>
  {
    if ok then [] else [f]
  }

  /** The fields whose rule a value breaks, in the schema's order. */
  function FormErrors(v: Values, emailValid: bool): seq<Field>
  {
    Flag(emailValid, EmailField) + Flag(|v.password| >= 6, PasswordField) +
    Flag(|v.firstName| >= 2, FirstNameField) + Flag(|v.lastName| >= 2, LastNameField) +
    Flag(|v.phone| >= 10, PhoneField) + Flag(|v.specialtyId| >= 1, SpecialtyField) +
    Flag(|v.licenseNumber| >= 1, LicenseField) + Flag(|v.yearsOfExperience| >= 1, ExperienceField) +
    Flag(|v.consultationFee| >= 1, FeeField)
  }

  /**
   * The form submits exactly when the e-mail is valid, the password has 6
   * characters, both names 2, the phone 10, and the specialty, licence,
   * experience and fee are non-empty; other name and gender never block.
   */
  lemma FormErrorsSpec(v: Values, emailValid: bool)
    ensures FormErrors(v, emailValid) == [] <==>
      emailValid && |v.password| >= 6 && |v.firstName| >= 2 && |v.lastName| >= 2 && |v.phone| >= 10 &&
      v.specialtyId != "" && v.licenseNumber != "" && v.yearsOfExperience != "" && v.consultationFee != ""
    ensures forall o, g :: FormErrors(v.(otherName := o, gender := g), emailValid) == FormErrors(v, emailValid)
    ensures |FormErrors(v, emailValid)| <= 9
  {
  }

  /** A specialty as listed: its id and its name. */
  datatype Specialty = Specialty(id: string, name: string)

  /** The five defaults shown when no specialty was fetched; each id is its name. */
  const DefaultSpecialties: seq<Specialty> := [
    Specialty("Fertility", "Fertility"),
    Specialty("Gynaecology", "Gynaecology"),
    Specialty("Obstetrics", "Obstetrics"),
    Specialty("Paediatrics", "Paediatrics"),
    Specialty("General Practice", "General Practice")]

  /** The dropdown's entries. */
  function SpecialtyOptions(fetched: seq<Specialty>): (r: seq<Specialty>)
    ensures |r| > 0
    ensures |fetched| > 0 ==> r == fetched
  {
    if |fetched| > 0 then fetched else DefaultSpecialties
  }

  /** `specialties.find(s => s.id === id)` succeeds. */
  predicate Known(fetched: seq<Specialty>, id: string)
  {
    exists k :: 0 <= k < |fetched| && fetched[k].id == id
  }

  // ---------------------------------------------------------------------
  // Submission
  // ---------------------------------------------------------------------

  datatype SignUpAnswer = SignUpError(message: string) | NoUser | UserCreated(userId: string)

  /** A backend error: its code and message ("" when absent). */
  datatype BackendError = BackendError(code: string, message: string)

  datatype UpsertAnswer = UpsertError(error: BackendError) | NoRow | SpecialtyRow(id: string)

  /** The missing-table test of lines 146 and 174-177. */
  predicate MissingTable(e: BackendError, table: string)
  {
    e.code == "PGRST205" || Contains(e.message, "Could not find the table 'public." + table + "'")
  }

  /** How the specialty is resolved: an id to use, a quiet stop, or an error to report. */
  datatype Resolution = UseSpecialty(id: string) | StopQuietly | Raise(message: string)

  /** The name sent to the upsert. */
  function UpsertName(selected: string): string
  {
    Trim(selected)
  }

  /** Lines 125-160: a fetched id is used as is; otherwise the upsert's answer decides. */
  function ResolveSpecialty(selected: string, fetched: seq<Specialty>, upsert: UpsertAnswer): Resolution
  {
    if Known(fetched, selected) then UseSpecialty(selected)
    else
      match upsert
      case SpecialtyRow(id) =>
        if id != "" then UseSpecialty(id) else Raise("Failed to create/find specialty")
      case NoRow => Raise("Failed to create/find specialty")
      case UpsertError(e) =>
        if MissingTable(e, "specialties") then StopQuietly
        else Raise(if e.message != "" then e.message else "Failed to create specialty. Check RLS and permissions.")
  }

  /** How a submission ends. */
  datatype SubmitOutcome = DoctorAdded(userId: string, specialtyId: string) | Stopped | Reported(message: string)

  /** onSubmit's sequence: each step's error ends it, in order. */
  function Submit(v: Values, fetched: seq<Specialty>, signUp: SignUpAnswer, roleUpdate: Option<BackendError>,
                  upsert: UpsertAnswer, insert: Option<BackendError>): SubmitOutcome
  {
    match signUp
    case SignUpError(m) => Reported(m)
    case NoUser => Reported("Failed to create user")
    case UserCreated(userId) =>
      if roleUpdate.Some? then Reported(roleUpdate.value.message)
      else
        match ResolveSpecialty(v.specialtyId, fetched, upsert)
        case StopQuietly => Stopped
        case Raise(m) => Reported(m)
        case UseSpecialty(id) =>
          if insert.Some? then
            (if MissingTable(insert.value, "doctors") then Stopped else Reported(insert.value.message))
          else DoctorAdded(userId, id)
  }

  /**
   * A specialty id among the fetched ones is used unchanged and the
   * upsert's answer is irrelevant; any other selection is resolved to the
   * id the upsert returns.
   */
  lemma ResolveSpecialtySpec(selected: string, fetched: seq<Specialty>, upsert: UpsertAnswer)
    ensures Known(fetched, selected) ==> ResolveSpecialty(selected, fetched, upsert) == UseSpecialty(selected)
    ensures !Known(fetched, selected) && upsert.SpecialtyRow? && upsert.id != "" ==>
      ResolveSpecialty(selected, fetched, upsert) == UseSpecialty(upsert.id)
    ensures !Known(fetched, selected) && upsert.UpsertError? ==>
      (ResolveSpecialty(selected, fetched, upsert) == StopQuietly <==> MissingTable(upsert.error, "specialties"))
    ensures ResolveSpecialty(selected, fetched, upsert).Raise? ==> ResolveSpecialty(selected, fetched, upsert).message != ""
  {
  }

  /**
   * With nothing fetched, every option is a default whose id is its name,
   * so the chosen default is upserted by its (already trimmed) name.
   */
  lemma DefaultChoiceUpsertsName(k: nat)
    requires k < |DefaultSpecialties|
    ensures var s := SpecialtyOptions([])[k];
      s.id == s.name && !Known([], s.id) && UpsertName(s.id) == s.name
  {
    var s := DefaultSpecialties[k];
    assert s.id != "" && !IsSpace(s.id[0]) && !IsSpace(s.id[|s.id| - 1]);
    TrimFixed(s.id);
  }

  /** A string without leading or trailing whitespace is its own trim. */
  lemma TrimFixed(s: string)
    requires s != [] && !IsSpace(s[0]) && !IsSpace(s[|s| - 1])
    ensures Trim(s) == s
  {
  }

  /**
   * A missing table never surfaces as an error: a submission stops
   * quietly when the specialties table is missing during the upsert or
   * the doctors table during the insert. A doctor is added only after
   * every step succeeded.
   */
  lemma SubmitSpec(v: Values, fetched: seq<Specialty>, signUp: SignUpAnswer, roleUpdate: Option<BackendError>,
                   upsert: UpsertAnswer, insert: Option<BackendError>)
    ensures var r := Submit(v, fetched, signUp, roleUpdate, upsert, insert);
      var res := ResolveSpecialty(v.specialtyId, fetched, upsert);
      (r.DoctorAdded? <==> (signUp.UserCreated? && roleUpdate.None? && res.UseSpecialty? && insert.None?)) &&
      (r.DoctorAdded? ==> (r.userId == signUp.userId && r.specialtyId == res.id)) &&
      (r.Stopped? ==> (signUp.UserCreated? && roleUpdate.None? &&
        (res == StopQuietly || (insert.Some? && MissingTable(insert.value, "doctors")))))
  {
  }

  /** The form's default values: every field empty. */
  const EmptyValues := Values("", "", "", "", Some(""), "", Some(""), "", "", "", "")

  /** The reset form is rejected on every required field but, possibly, the e-mail. */
  lemma EmptyFormRejected(emailValid: bool)
    ensures |FormErrors(EmptyValues, emailValid)| == if emailValid then 8 else 9
  {
  }

  /** The dialog's state: its busy flag, whether it is open, the form, and the doctors it added. */
  class AddDoctorDialog {
    var loading: bool
    var open: bool
    var values: Values
    var added: seq<SubmitOutcome>

    constructor()
      ensures !loading && open && values == EmptyValues && added == []
    {
      loading := false;
      open := true;
      values := EmptyValues;
      added := [];
    }

    /**
     * onSubmit with the backend's answers passed in: a success resets the
     * form, closes the dialog and is recorded; a stop or an error leaves
     * them as they were; loading is off at the end either way.
     */
    method OnSubmit(fetched: seq<Specialty>, signUp: SignUpAnswer, roleUpdate: Option<BackendError>,
                    upsert: UpsertAnswer, insert: Option<BackendError>) returns (r: SubmitOutcome)
      modifies this
      ensures r == Submit(old(values), fetched, signUp, roleUpdate, upsert, insert)
      ensures !loading
      ensures r.DoctorAdded? ==> !open && values == EmptyValues && added == old(added) + [r]
      ensures !r.DoctorAdded? ==> open == old(open) && values == old(values) && added == old(added)
    {
      loading := true;
      r := Submit(values, fetched, signUp, roleUpdate, upsert, insert);
      if r.DoctorAdded? {
        added := added + [r];
        values := EmptyValues;
        open := false;
      }
      loading := false;
    }
  }
}
