/**
 * The add-employee form of the client: seven text fields, a success
 * message, an error message and a map of per-field validation errors,
 * changed by three handlers: a keystroke in a field, submit and reset.
 *
 * The current date and the outcome of the HTTP post are parameters of the
 * handlers; the post itself is not modelled.
 */
module EmployeeForm {
  import opened Wrappers
  import opened Text
  import opened EmailSyntax
  import opened IsoDates

  /** The inputs of the form, by their `name` attribute. */
  datatype Field = EmployeeId | Name | Email | Phone | Department | DateOfJoining | Role

  /** The form's values, one string per input. */
  datatype FormData = FormData(
    employeeId: string,
    name: string,
    email: string,
    phone: string,
    department: string,
    dateOfJoining: string,
    role: string)
  {
    function Get(f: Field): string {
      match f
      case EmployeeId => employeeId
      case Name => name
      case Email => email
      case Phone => phone
      case Department => department
      case DateOfJoining => dateOfJoining
      case Role => role
    }

    /** `{ ...formData, [f]: v }`. */
    function Set(f: Field, v: string): (r: FormData)
      ensures r.Get(f) == v
      ensures forall g :: g != f ==> r.Get(g) == Get(g)
    {
      match f
      case EmployeeId => this.(employeeId := v)
      case Name => this.(name := v)
      case Email => this.(email := v)
      case Phone => this.(phone := v)
      case Department => this.(department := v)
      case DateOfJoining => this.(dateOfJoining := v)
      case Role => this.(role := v)
    }
  }

  /** The form's initial value, and the value submit and reset return it to. */
  const EmptyForm := FormData("", "", "", "", "", "", "")

  /** The longest phone number a keystroke may leave in the form. */
  const MaxPhoneLength := 10

  // ---------------------------------------------------------------------
  // Per-keystroke normalisation

  /**
   * What a keystroke stores in field `f` when the input shows `value`:
   * digits only for the id and the phone, letters and white space only for
   * the name, the value itself for every other field; `None` when the edit
   * is dropped, which happens only to a phone number longer than ten digits.
   */
  function Normalized(f: Field, value: string): Option<string> {
    match f
    case EmployeeId => Some(Keep(value, IsDigit))
    case Name => Some(Keep(value, IsNameChar))
    case Phone =>
      var digits := Keep(value, IsDigit);
      if |digits| <= MaxPhoneLength then Some(digits) else None
    case _ => Some(value)
  }

  /** The form after a keystroke: only the edited field may change. */
  function ApplyEdit(d: FormData, f: Field, value: string): (r: FormData)
    ensures forall g :: g != f ==> r.Get(g) == d.Get(g)
    ensures r.Get(f) == d.Get(f) || Some(r.Get(f)) == Normalized(f, value)
  {
    match Normalized(f, value)
    case None => d
    case Some(v) => d.Set(f, v)
  }

  /** E-mail, department, date of joining and role store the input verbatim. */
  lemma VerbatimFields(d: FormData, f: Field, value: string)
    requires f == Email || f == Department || f == DateOfJoining || f == Role
    ensures ApplyEdit(d, f, value) == d.Set(f, value)
  {
  }

  /** The only edit ever dropped is a phone edit with more than ten digits. */
  lemma OnlyPhoneDropped(f: Field, value: string)
    ensures Normalized(f, value).None? <==> f == Phone && |Keep(value, IsDigit)| > MaxPhoneLength
  {
  }

  /**
   * The invariant the keystroke filters establish from the empty form on:
   * the id and the phone hold digits only, the phone at most ten of them,
   * the name letters and white space only.
   */
  predicate Reachable(d: FormData) {
    && All(d.employeeId, IsDigit)
    && All(d.phone, IsDigit) && |d.phone| <= MaxPhoneLength
    && All(d.name, IsNameChar)
  }

  lemma EmptyFormReachable()
    ensures Reachable(EmptyForm)
  {
  }

  /** Every keystroke keeps the form reachable. */
  lemma EditPreservesReachable(d: FormData, f: Field, value: string)
    requires Reachable(d)
    ensures Reachable(ApplyEdit(d, f, value))
  {
  }

  /**
   * An id keystroke stores the input with every non-digit removed and
   * nothing else: an order-preserving subsequence of the input holding each
   * of its digits.
   */
  lemma EmployeeIdEdit(d: FormData, value: string)
    ensures var id := ApplyEdit(d, EmployeeId, value).employeeId;
      && All(id, IsDigit)
      && IsSubsequence(id, value)
      && forall c :: multiset(id)[c] == if IsDigit(c) then multiset(value)[c] else 0
  {
    KeepIsSubsequence(value, IsDigit);
    forall c ensures multiset(Keep(value, IsDigit))[c] == if IsDigit(c) then multiset(value)[c] else 0 {
      KeepCounts(value, IsDigit, c);
    }
  }

  /** A name keystroke stores only letters and white space, in input order. */
  lemma NameEdit(d: FormData, value: string)
    ensures var n := ApplyEdit(d, Name, value).name;
      && All(n, IsNameChar)
      && IsSubsequence(n, value)
      && forall c :: multiset(n)[c] == if IsNameChar(c) then multiset(value)[c] else 0
  {
    KeepIsSubsequence(value, IsNameChar);
    forall c ensures multiset(Keep(value, IsNameChar))[c] == if IsNameChar(c) then multiset(value)[c] else 0 {
      KeepCounts(value, IsNameChar, c);
    }
  }

  /**
   * A phone keystroke whose digits number more than ten leaves the form as
   * it was (the value is not truncated); otherwise the phone becomes those
   * digits.
   */
  lemma PhoneEdit(d: FormData, value: string)
    ensures var digits := Keep(value, IsDigit);
      ApplyEdit(d, Phone, value) == if |digits| > MaxPhoneLength then d else d.(phone := digits)
  {
  }

  /**
   * The three filters are idempotent: on a reachable form, typing the
   * stored value again stores it unchanged.
   */
  lemma FiltersIdempotent(d: FormData, f: Field, value: string)
    requires Reachable(d)
    requires f == EmployeeId || f == Name || f == Phone
    ensures var r := ApplyEdit(d, f, value); ApplyEdit(r, f, r.Get(f)) == r
  {
    var r := ApplyEdit(d, f, value);
    EditPreservesReachable(d, f, value);
    if f == Name {
      KeepClean(r.name, IsNameChar);
    } else if f == EmployeeId {
      KeepClean(r.employeeId, IsDigit);
    } else {
      KeepClean(r.phone, IsDigit);
    }
  }

  // ---------------------------------------------------------------------
  // Submit-time validation

  /** The messages the form shows beside a failing field. */
  const IdMessage := "Employee ID must be a valid integer"
  const EmailMessage := "Please enter a valid email address (e.g., example@gmail.com)"
  const PhoneMessage := "Phone number must be exactly 10 digits"
  const DateMessage := "Date of joining cannot be in the future"

  function Message(f: Field): string {
    match f
    case EmployeeId => IdMessage
    case Email => EmailMessage
    case Phone => PhoneMessage
    case DateOfJoining => DateMessage
    case _ => ""
  }

  /**
   * The per-field rule submit applies. Only four fields are checked. The
   * id fails when empty or when `isNaN` holds of it, which this model takes
   * to be "not all digits"; the date fails when empty or later than `today`
   * in JavaScript's string order.
   */
  predicate Fails(f: Field, d: FormData, today: string) {
    match f
    case EmployeeId => d.employeeId == "" || !All(d.employeeId, IsDigit)
    case Email => !IsValidEmail(d.email)
    case Phone => |d.phone| != 10
    case DateOfJoining => d.dateOfJoining == "" || StrLess(today, d.dateOfJoining)
    case _ => false
  }

  /**
   * The error map submit builds: every check runs, each failing field gets
   * its message, no other key is present.
   */
  method CollectErrors(d: FormData, today: string) returns (errors: map<Field, string>)
    ensures forall f :: f in errors <==> Fails(f, d, today)
    ensures forall f :: f in errors ==> errors[f] == Message(f)
  {
    errors := map[];
    if d.employeeId == "" || !All(d.employeeId, IsDigit) {
      errors := errors[EmployeeId := Message(EmployeeId)];
    }
    if !IsValidEmail(d.email) {
      errors := errors[Email := Message(Email)];
    }
    if |d.phone| != 10 {
      errors := errors[Phone := Message(Phone)];
    }
    if d.dateOfJoining == "" || StrLess(today, d.dateOfJoining) {
      errors := errors[DateOfJoining := Message(DateOfJoining)];
    }
    forall f ensures f in errors <==> Fails(f, d, today) {
      match f
      case EmployeeId =>
      case Email =>
      case Phone =>
      case DateOfJoining =>
      case _ => assert f !in errors;
    }
  }

  /** Each check reads its own field only, so one field's error never depends on another field. */
  lemma ChecksArePerField(f: Field, d1: FormData, d2: FormData, today: string)
    requires d1.Get(f) == d2.Get(f)
    ensures Fails(f, d1, today) == Fails(f, d2, today)
  {
  }

  /** Name, department and role are never checked at submit. */
  lemma UncheckedFields(d: FormData, today: string)
    ensures !Fails(Name, d, today) && !Fails(Department, d, today) && !Fails(Role, d, today)
  {
  }

  /** On a reachable form the id check fires exactly when the id is empty: `isNaN` never does. */
  lemma IdCheckOnReachable(d: FormData, today: string)
    requires Reachable(d)
    ensures Fails(EmployeeId, d, today) <==> d.employeeId == ""
  {
  }

  /** The e-mail check fails exactly on the strings outside the regular language. */
  lemma EmailCheck(d: FormData, today: string)
    ensures Fails(Email, d, today) <==> !MatchesPattern(d.email)
  {
    IsValidEmailIsPattern(d.email);
  }

  /** A phone passes with exactly ten characters; nine or eleven fail. */
  lemma PhoneBoundary(d: FormData, today: string)
    ensures |d.phone| == 9 || |d.phone| == 11 ==> Fails(Phone, d, today)
    ensures |d.phone| == 10 ==> !Fails(Phone, d, today)
  {
  }

  /**
   * A joining date equal to today passes (the comparison is strict); for
   * well-formed dates the check fails exactly on the dates after today.
   */
  lemma DateCheck(d: FormData, today: string)
    ensures d.dateOfJoining == today && today != "" ==> !Fails(DateOfJoining, d, today)
    ensures IsIsoDate(d.dateOfJoining) && IsIsoDate(today) ==>
      (Fails(DateOfJoining, d, today) <==> DayNumber(today) < DayNumber(d.dateOfJoining))
  {
    StrLessIrreflexive(today);
    if IsIsoDate(d.dateOfJoining) && IsIsoDate(today) {
      IsoDateOrder(today, d.dateOfJoining);
    }
  }

  /**
   * The string comparison misorders a five-digit year: a date in year 10000
   * sorts before 2024, so the date check lets it through.
   */
  lemma FiveDigitYearPasses(d: FormData)
    ensures !Fails(DateOfJoining, d.(dateOfJoining := "10000-01-01"), "2024-01-10")
  {
    assert "2024-01-10"[0] == '2' && "10000-01-01"[0] == '1';
  }

  /** A complete, well-formed record joining today. */
  const Ada := FormData("101", "Ada Lovelace", "ada@example.com", "9876543210", "Engineering", "2024-01-10", "Engineer")

  /** It passes every check. */
  lemma CompleteRecordPasses()
    ensures forall f :: !Fails(f, Ada, "2024-01-10")
  {
    assert All(Ada.employeeId, IsDigit) by {
      forall i | 0 <= i < 3 ensures IsDigit("101"[i]) {
        assert i == 0 || i == 1 || i == 2;
      }
    }
    assert IsValidEmail(Ada.email) by {
      AcceptedExample();
    }
    assert !StrLess("2024-01-10", Ada.dateOfJoining) by {
      StrLessIrreflexive("2024-01-10");
    }
    assert |Ada.phone| == 10;
  }

  /** On a form that passes, a malformed address makes the e-mail check fail and no other. */
  lemma BadEmailFailsAlone(d: FormData, today: string)
    requires forall f :: !Fails(f, d, today)
    ensures forall f :: Fails(f, d.(email := "not-an-email"), today) <==> f == Email
  {
    var bad := d.(email := "not-an-email");
    RejectsMissingAt();
    forall f ensures Fails(f, bad, today) <==> f == Email {
      if f != Email {
        ChecksArePerField(f, d, bad, today);
      }
    }
  }

  /** On a form that passes, a date after today makes the date check fail and no other. */
  lemma FutureDateFailsAlone(d: FormData, today: string, later: string)
    requires forall f :: !Fails(f, d, today)
    requires StrLess(today, later)
    ensures forall f :: Fails(f, d.(dateOfJoining := later), today) <==> f == DateOfJoining
  {
    var late := d.(dateOfJoining := later);
    forall f ensures Fails(f, late, today) <==> f == DateOfJoining {
      if f != DateOfJoining {
        ChecksArePerField(f, d, late, today);
      }
    }
  }

  /** The complete record with `not-an-email`, or joining the day after today, fails that field alone. */
  lemma FailingScenarios()
    ensures forall f :: Fails(f, Ada.(email := "not-an-email"), "2024-01-10") <==> f == Email
    ensures forall f :: Fails(f, Ada.(dateOfJoining := "2024-01-11"), "2024-01-10") <==> f == DateOfJoining
  {
    CompleteRecordPasses();
    BadEmailFailsAlone(Ada, "2024-01-10");
    assert StrLess("2024-01-10", "2024-01-11") by {
      assert "2024-01-10" == "2024-01-1" + "0" && "2024-01-11" == "2024-01-1" + "1";
      StrLessConcat("2024-01-1", "0", "2024-01-1", "1");
    }
    FutureDateFailsAlone(Ada, "2024-01-10", "2024-01-11");
  }

  // ---------------------------------------------------------------------
  // Handlers

  /** What the post returned: the server's message, or a failure with the server's message if any. */
  datatype PostResult = Succeeded(message: string) | Failed(serverMessage: Option<string>)

  const FallbackError := "Something went wrong!"

  /** `error.response?.data?.message || 'Something went wrong!'`: a missing or empty message falls back. */
  function FailureText(serverMessage: Option<string>): (t: string)
    ensures t != ""
    ensures serverMessage.Some? && serverMessage.value != "" ==> t == serverMessage.value
    ensures (serverMessage.None? || serverMessage.value == "") ==> t == FallbackError
  {
    match serverMessage
    case Some(m) => if m != "" then m else FallbackError
    case None => FallbackError
  }

  class AddEmployeeForm {
    var data: FormData
    var successMessage: string
    var errorMessage: string
    var validationErrors: map<Field, string>

    /** The keystroke invariant, and only checked fields carry errors. */
    ghost predicate Valid()
      reads this
    {
      && Reachable(data)
      && forall f :: f in validationErrors ==> f in {EmployeeId, Email, Phone, DateOfJoining}
    }

    constructor ()
      ensures Valid()
      ensures data == EmptyForm && successMessage == "" && errorMessage == "" && validationErrors == map[]
    {
      data := EmptyForm;
      successMessage, errorMessage := "", "";
      validationErrors := map[];
    }

    /** `handleChange`: normalise the keystroke into the named field. */
    method HandleChange(field: Field, value: string)
      requires Valid()
      modifies this
      ensures Valid()
      ensures data == ApplyEdit(old(data), field, value)
      ensures successMessage == old(successMessage) && errorMessage == old(errorMessage)
      ensures validationErrors == old(validationErrors)
    {
      EditPreservesReachable(data, field, value);
      if field == EmployeeId {
        data := data.(employeeId := Keep(value, IsDigit));
        return;
      }
      if field == Name {
        data := data.(name := Keep(value, IsNameChar));
        return;
      }
      if field == Phone {
        var phoneValue := Keep(value, IsDigit);
        if |phoneValue| <= MaxPhoneLength {
          data := data.(phone := phoneValue);
        }
        return;
      }
      data := data.Set(field, value);
    }

    /**
     * `handleSubmit`: clear the messages, collect the errors; with any error,
     * show them and post nothing; otherwise post the form, and on success
     * show the server's message and empty the form, on failure show the
     * failure text and keep the form. `sent` is the payload posted, if any.
     */
    method HandleSubmit(today: string, post: PostResult) returns (sent: Option<FormData>)
      requires Valid()
      modifies this
      ensures Valid()
      ensures sent.None? <==> exists f :: Fails(f, old(data), today)
      ensures sent.None? ==>
        && data == old(data) && successMessage == "" && errorMessage == ""
        && (forall f :: f in validationErrors <==> Fails(f, old(data), today))
        && (forall f :: f in validationErrors ==> validationErrors[f] == Message(f))
      ensures sent.Some? ==> sent.value == old(data) && validationErrors == map[]
      ensures sent.Some? && post.Succeeded? ==>
        data == EmptyForm && successMessage == post.message && errorMessage == ""
      ensures sent.Some? && post.Failed? ==>
        data == old(data) && successMessage == "" && errorMessage == FailureText(post.serverMessage)
    {
      successMessage := "";
      errorMessage := "";
      validationErrors := map[];

      var errors := CollectErrors(data, today);
      if errors != map[] {
        validationErrors := errors;
        sent := None;
        return;
      }
      assert forall f :: !Fails(f, data, today) by {
        forall f ensures !Fails(f, data, today) {
          assert f !in errors;
        }
      }

      sent := Some(data);
      match post
      case Succeeded(message) =>
        successMessage := message;
        data := EmptyForm;
      case Failed(serverMessage) =>
        errorMessage := FailureText(serverMessage);
    }

    /** `handleReset`: empty every field, clear both messages and the errors. */
    method HandleReset()
      modifies this
      ensures Valid()
      ensures data == EmptyForm && successMessage == "" && errorMessage == "" && validationErrors == map[]
    {
      data := EmptyForm;
      successMessage := "";
      errorMessage := "";
      validationErrors := map[];
    }
  }
}
