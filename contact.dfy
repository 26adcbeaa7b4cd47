/**
 * The contact form: six sanitized fields, a rate limit of five sends per
 * hour, three field checks whose messages accumulate, and the reset after
 * a successful send.
 */
module Contact {
  import opened JsString
  import opened Storage
  import Sanitizer
  import RateLimit
  import Validators

  /** The form's `formData` state. */
  datatype ContactData = ContactData(name: JsString, email: JsString, phone: JsString, service: JsString, date: JsString, message: JsString)

  /** The initial state and the state the delayed reset restores: every field empty. */
  const BLANK: ContactData := ContactData([], [], [], [], [], [])

  /** The six inputs, by their `name` attribute. */
  datatype Field = Name | Email | Phone | Service | Date | Message

  const CONTACT_ACTION: JsString := ['c' as int, 'o' as int, 'n' as int, 't' as int, 'a' as int, 'c' as int, 't' as int]
  const MAX_PER_HOUR: int := 5
  const HOUR_IN_MS: int := 3600000

  const RATE_LIMITED: string := "Muitas tentativas. Tente novamente em 1 hora."

  /** The three field checks, in the order they run. */
  datatype Check = NameCheck | EmailCheck | PhoneCheck

  /** The message a failed check pushes. */
  function ErrorText(c: Check): string {
    match c
    case NameCheck => "Nome deve ter pelo menos 2 caracteres"
    case EmailCheck => "Email inválido"
    case PhoneCheck => "Telefone inválido"
  }

  /**
   * Whether a check fails: an empty or one-unit name (there is no upper
   * bound), an email `isValidEmail` rejects, a phone that is filled in and
   * that `isValidPhone` rejects.
   */
  predicate Fails(c: Check, d: ContactData) {
    match c
    case NameCheck => |d.name| < 2
    case EmailCheck => !Validators.IsValidEmail(d.email)
    case PhoneCheck => d.phone != [] && !Validators.IsValidPhone(d.phone)
  }

  function Rank(c: Check): nat {
    match c
    case NameCheck => 0
    case EmailCheck => 1
    case PhoneCheck => 2
  }

  /** `validationErrors`: one message per failed check, in check order. */
  function ValidationErrors(d: ContactData): (errs: seq<string>)
    ensures |errs| <= 3
    ensures errs == [] <==> !Fails(NameCheck, d) && !Fails(EmailCheck, d) && !Fails(PhoneCheck, d)
  {
    (if Fails(NameCheck, d) then [ErrorText(NameCheck)] else [])
    + (if Fails(EmailCheck, d) then [ErrorText(EmailCheck)] else [])
    + (if Fails(PhoneCheck, d) then [ErrorText(PhoneCheck)] else [])
  }

  /** The handler's accumulation of `validationErrors`, one `push` per failed check. */
  method CollectValidationErrors(d: ContactData) returns (validationErrors: seq<string>)
    ensures validationErrors == ValidationErrors(d)
  {
    validationErrors := [];
    if |d.name| == 0 || |d.name| < 2 {
      validationErrors := validationErrors + [ErrorText(NameCheck)];
    }
    if !Validators.IsValidEmail(d.email) {
      validationErrors := validationErrors + [ErrorText(EmailCheck)];
    }
    if |d.phone| != 0 && !Validators.IsValidPhone(d.phone) {
      validationErrors := validationErrors + [ErrorText(PhoneCheck)];
    }
  }

  /** Each failed check, and only a failed check, has its message in the list. */
  lemma ValidationErrorsReportFailures(d: ContactData)
    ensures forall c :: ErrorText(c) in ValidationErrors(d) <==> Fails(c, d)
  {
    MessagesDistinct();
  }

  /** The messages follow the order in which the checks run. */
  lemma ValidationErrorsInCheckOrder(d: ContactData)
    ensures var errs := ValidationErrors(d);
      forall i, j, c1, c2 :: 0 <= i < j < |errs| && errs[i] == ErrorText(c1) && errs[j] == ErrorText(c2) ==> Rank(c1) < Rank(c2)
  {
    MessagesDistinct();
  }

  /** The three messages differ, so each message names its check. */
  lemma MessagesDistinct()
    ensures forall c1, c2 :: ErrorText(c1) == ErrorText(c2) ==> c1 == c2
  {
    forall c1, c2 | c1 != c2 ensures ErrorText(c1) != ErrorText(c2) {
      assert ErrorText(c1)[1] != ErrorText(c2)[1] || |ErrorText(c1)| != |ErrorText(c2)|;
    }
  }

  /** `formData` with the input `f` set to `v`. */
  function WithField(d: ContactData, f: Field, v: JsString): (r: ContactData)
    ensures r.name == (if f == Name then v else d.name)
    ensures r.email == (if f == Email then v else d.email)
    ensures r.phone == (if f == Phone then v else d.phone)
    ensures r.service == (if f == Service then v else d.service)
    ensures r.date == (if f == Date then v else d.date)
    ensures r.message == (if f == Message then v else d.message)
  {
    match f
    case Name => d.(name := v)
    case Email => d.(email := v)
    case Phone => d.(phone := v)
    case Service => d.(service := v)
    case Date => d.(date := v)
    case Message => d.(message := v)
  }

  /** The value of the input `f`. */
  function FieldValue(d: ContactData, f: Field): (v: JsString)
    ensures WithField(d, f, v) == d
  {
    match f
    case Name => d.name
    case Email => d.email
    case Phone => d.phone
    case Service => d.service
    case Date => d.date
    case Message => d.message
  }

  /** Every field holds a value `sanitizeInput` can return. */
  predicate AllSanitized(d: ContactData) {
    Sanitizer.Sanitized(d.name) && Sanitizer.Sanitized(d.email) && Sanitizer.Sanitized(d.phone)
    && Sanitizer.Sanitized(d.service) && Sanitizer.Sanitized(d.date) && Sanitizer.Sanitized(d.message)
  }

  /** How one send ends. */
  datatype Outcome = RateLimited | Rejected | Sent

  class ContactForm {
    var formData: ContactData
    var isSubmitted: bool
    var errors: seq<string>
    const store: LocalStorage

    /** Every field holds a value `sanitizeInput` returned (or the empty start value). */
    predicate Valid()
      reads this
    {
      AllSanitized(formData)
    }

    constructor (store: LocalStorage)
      ensures Valid()
      ensures formData == BLANK && !isSubmitted && errors == [] && this.store == store
    {
      formData := BLANK;
      isSubmitted := false;
      errors := [];
      this.store := store;
    }

    /** `handleInputChange`: the named field becomes `sanitizeInput(value)`, and the errors are cleared. */
    method HandleInputChange(f: Field, value: JsString)
      requires Valid()
      modifies this
      ensures Valid()
      ensures formData == WithField(old(formData), f, Sanitizer.SanitizeInput(value))
      ensures errors == [] && isSubmitted == old(isSubmitted)
    {
      formData := WithField(formData, f, Sanitizer.SanitizeInput(value));
      errors := [];
    }

    /**
     * `handleSubmit` at time `now`; `rateWriteOk` says whether storing the
     * rate-limit bucket succeeds. Nothing is sent anywhere: a send only
     * shows the confirmation. The form, and so its submit button, is only
     * rendered while no confirmation is shown.
     */
    method HandleSubmit(now: int, rateWriteOk: bool) returns (outcome: Outcome)
      requires Valid() && !isSubmitted
      modifies this, store
      ensures Valid()
      ensures var bucket := RateLimit.Bucket(old(store.rateBuckets), RateLimit.RateKey(CONTACT_ACTION));
        && (outcome == RateLimited <==> !RateLimit.Allowed(bucket, MAX_PER_HOUR, HOUR_IN_MS, now))
        && store.rateBuckets ==
          if outcome != RateLimited && rateWriteOk
          then old(store.rateBuckets)[RateLimit.RateKey(CONTACT_ACTION) := Holds(RateLimit.After(bucket, MAX_PER_HOUR, HOUR_IN_MS, now))]
          else old(store.rateBuckets)
      ensures store.hashes == old(store.hashes) && store.approved == old(store.approved)
      ensures outcome == RateLimited ==> errors == [RATE_LIMITED]
      ensures outcome == Rejected <==> outcome != RateLimited && ValidationErrors(old(formData)) != []
      ensures outcome == Rejected ==> errors == ValidationErrors(old(formData))
      ensures isSubmitted <==> outcome == Sent
      ensures outcome == Sent ==> errors == old(errors)
      ensures formData == old(formData)
    {
      var allowed := RateLimit.CheckRateLimit(store, CONTACT_ACTION, MAX_PER_HOUR, HOUR_IN_MS, now, rateWriteOk);
      if !allowed {
        errors := [RATE_LIMITED];
        return RateLimited;
      }

      var validationErrors := CollectValidationErrors(formData);
      if |validationErrors| > 0 {
        errors := validationErrors;
        return Rejected;
      }

      isSubmitted := true;
      return Sent;
    }

    /** The `setTimeout` callback after a send: the confirmation goes away and every field is emptied. */
    method ResetAfterDelay()
      requires Valid()
      modifies this
      ensures Valid()
      ensures formData == BLANK && !isSubmitted && errors == old(errors)
    {
      isSubmitted := false;
      formData := BLANK;
    }
  }

  // ---------------------------------------------------------------------
  // Properties

  /** A send passes the checks exactly when the name has two units, the email is valid and the phone is empty or valid. */
  lemma SentIffFieldsValid(d: ContactData)
    ensures ValidationErrors(d) == [] <==>
      && |d.name| >= 2
      && Validators.IsValidEmail(d.email)
      && (d.phone == [] || Validators.IsValidPhone(d.phone))
  {
  }

  /** An empty phone is never reported: the phone is optional. */
  lemma EmptyPhoneAccepted(d: ContactData)
    requires d.phone == []
    ensures ErrorText(PhoneCheck) !in ValidationErrors(d)
  {
    ValidationErrorsReportFailures(d);
  }

  /** A blank form reports the name and the email, in that order, and nothing else. */
  lemma BlankFormErrors()
    ensures ValidationErrors(BLANK) == [ErrorText(NameCheck), ErrorText(EmailCheck)]
  {
    assert Fails(NameCheck, BLANK) && !Fails(PhoneCheck, BLANK);
    assert Fails(EmailCheck, BLANK) by {
      assert Validators.IndexOf([], Validators.AT) == -1;
    }
    assert ValidationErrors(BLANK) == [ErrorText(NameCheck)] + [ErrorText(EmailCheck)] + [];
  }

  /**
   * A space typed at the end of a clean field is dropped at once: the field
   * keeps its value.
   */
  lemma TypedTrailingSpaceDropped(d: ContactData, f: Field, c: CodeUnit)
    requires IsSpace(c) && Sanitizer.AlreadyClean(FieldValue(d, f))
    ensures WithField(d, f, Sanitizer.SanitizeInput(FieldValue(d, f) + [c])) == d
  {
    Sanitizer.SanitizeDropsTypedTrailingSpace(FieldValue(d, f), c);
  }
}
