/**
 * The testimonial form component: its fields, its input handlers, and the
 * submit handler that runs the rate limit, the validation and the
 * duplicate check in turn before it records the hash and the testimonial
 * in storage.
 */
module TestimonialForm {
  import opened Wrappers
  import opened JsString
  import opened Storage
  import Sanitizer
  import RateLimit
  import TestimonialRules
  import ContentHash

  /** The form's `formData` state. */
  datatype FormData = FormData(name: JsString, message: JsString, rating: int, treatment: JsString)

  /** The initial state and the state the delayed reset restores. */
  const BLANK: FormData := FormData([], [], 5, [])

  /** The three text inputs, by their `name` attribute. */
  datatype Field = Name | Message | Treatment

  const TESTIMONIAL_ACTION: JsString := ['t' as int, 'e' as int, 's' as int, 't' as int, 'i' as int, 'm' as int,
                                         'o' as int, 'n' as int, 'i' as int, 'a' as int, 'l' as int]
  const MAX_PER_HOUR: int := 3
  const HOUR_IN_MS: int := 60 * 60 * 1000

  const RATE_LIMITED: string := "Muitas tentativas. Tente novamente em 1 hora."
  const ALREADY_SENT: string := "Este depoimento já foi enviado anteriormente."
  const SEND_FAILED: string := "Erro ao enviar depoimento. Tente novamente."

  const CLIENT_ROLE: JsString := ['C' as int, 'l' as int, 'i' as int, 'e' as int, 'n' as int, 't' as int, 'e' as int]

  /** How one submit ends. */
  datatype Outcome =
    | RateLimited
    | Invalid
    | Duplicate
      /** `JSON.parse` of the stored hashes threw: the handler stops with the exception. */
    | Aborted
      /** Writing the hashes threw: the outer `catch` reports a send error. */
    | SendFailed
    | Accepted(record: Testimonial)

  /** `formData` with the input `f` set to `v`. */
  function WithField(d: FormData, f: Field, v: JsString): (r: FormData)
    ensures r.rating == d.rating
    ensures r.name == (if f == Name then v else d.name)
    ensures r.message == (if f == Message then v else d.message)
    ensures r.treatment == (if f == Treatment then v else d.treatment)
  {
    match f
    case Name => d.(name := v)
    case Message => d.(message := v)
    case Treatment => d.(treatment := v)
  }

  /**
   * The record built on acceptance: the four form fields, then a fresh
   * `id`, the ISO `date`, `approved` true and the role `Cliente`.
   */
  function NewRecord(d: FormData, id: JsString, date: JsString): (t: Testimonial)
    ensures t.name == d.name && t.message == Some(d.message) && t.rating == d.rating && t.treatment == d.treatment
    ensures t.id == Some(id) && t.date == Some(date) && t.approved == Some(true) && t.role == CLIENT_ROLE
    ensures t.text == None && t.image == None && !t.canDelete
  {
    Testimonial(Some(id), d.name, CLIENT_ROLE, d.rating, d.treatment, Some(d.message), None, None, Some(date), Some(true), false)
  }

  class Form {
    var formData: FormData
    var isSubmitted: bool
    var errors: seq<string>
    const store: LocalStorage

    /** Every text field holds a value `sanitizeInput` returned (or the empty start value). */
    predicate Valid()
      reads this
    {
      Sanitizer.Sanitized(formData.name) && Sanitizer.Sanitized(formData.message) && Sanitizer.Sanitized(formData.treatment)
    }

    constructor (store: LocalStorage)
      ensures Valid()
      ensures formData == BLANK && !isSubmitted && errors == [] && this.store == store
    {
      formData := BLANK;
      isSubmitted := false;
      errors := [];
      this.store := store;
    }

    /** `handleInputChange`: the named field becomes `sanitizeInput(value)`, and the errors are cleared. */
    method HandleInputChange(f: Field, value: JsString)
      requires Valid()
      modifies this
      ensures Valid()
      ensures formData == WithField(old(formData), f, Sanitizer.SanitizeInput(value))
      ensures errors == [] && isSubmitted == old(isSubmitted)
    {
      formData := WithField(formData, f, Sanitizer.SanitizeInput(value));
      errors := [];
    }

    /** `handleRatingChange`: only the rating changes, and the errors are cleared. */
    method HandleRatingChange(rating: int)
      requires Valid()
      modifies this
      ensures Valid()
      ensures formData == old(formData).(rating := rating)
      ensures errors == [] && isSubmitted == old(isSubmitted)
    {
      formData := formData.(rating := rating);
      errors := [];
    }

    /**
     * `handleSubmit` at time `now`, with `id` and `date` the values
     * `crypto.randomUUID()` and `new Date().toISOString()` would give. The
     * three flags say whether each `localStorage.setItem` succeeds. The
     * two-second simulated send is taken to complete at once. While
     * `isSubmitted` holds the component renders the confirmation instead of
     * the form, so there is no submit to handle.
     */
    method HandleSubmit(now: int, id: JsString, date: JsString, rateWriteOk: bool, hashesWriteOk: bool, approvedWriteOk: bool)
      returns (outcome: Outcome)
      requires Valid() && !isSubmitted
      modifies this, store
      ensures Valid()
      // the rate-limit gate runs first, on every submit
      ensures var bucket := RateLimit.Bucket(old(store.rateBuckets), RateLimit.RateKey(TESTIMONIAL_ACTION));
        && (outcome == RateLimited <==> !RateLimit.Allowed(bucket, MAX_PER_HOUR, HOUR_IN_MS, now))
        && store.rateBuckets ==
          if outcome != RateLimited && rateWriteOk
          then old(store.rateBuckets)[RateLimit.RateKey(TESTIMONIAL_ACTION) := Holds(RateLimit.After(bucket, MAX_PER_HOUR, HOUR_IN_MS, now))]
          else old(store.rateBuckets)
      ensures outcome == RateLimited ==> errors == [RATE_LIMITED]
      // then validation
      ensures var v := TestimonialRules.Violations(old(formData).name, old(formData).message, old(formData).rating);
        && (outcome == Invalid <==> outcome != RateLimited && v != [])
        && (outcome == Invalid ==> errors == TestimonialRules.Messages(v))
      // then the duplicate check
      ensures outcome == Aborted <==> outcome != RateLimited && outcome != Invalid && old(store.hashes).Unparsable?
      ensures outcome == Duplicate <==>
        && outcome != RateLimited && outcome != Invalid
        && old(store.hashes).Holds? && ContentHash.HashToken(old(formData).message) in old(store.hashes).value
      ensures outcome == Duplicate ==> errors == [ALREADY_SENT]
      ensures outcome == SendFailed <==> outcome != RateLimited && outcome != Invalid && outcome != Duplicate && outcome != Aborted && !hashesWriteOk
      ensures outcome == SendFailed ==> errors == [SEND_FAILED]
      // a rejected submit leaves the ledgers, the fields and the submitted flag alone
      ensures !outcome.Accepted? ==>
        && store.hashes == old(store.hashes) && store.approved == old(store.approved)
        && formData == old(formData) && isSubmitted == old(isSubmitted)
      ensures outcome == Aborted ==> errors == old(errors)
      // an accepted one appends the hash and the record
      ensures outcome.Accepted? ==>
        && outcome.record == NewRecord(old(formData), id, date)
        && store.hashes == Holds(ParsedOrEmpty(old(store.hashes), []) + [ContentHash.HashToken(old(formData).message)])
        && store.approved ==
          (if old(store.approved).Unparsable? || !approvedWriteOk then old(store.approved)
           else Holds(ParsedOrEmpty(old(store.approved), []) + [outcome.record]))
        && isSubmitted && formData == old(formData) && errors == old(errors)
    {
      var allowed := RateLimit.CheckRateLimit(store, TESTIMONIAL_ACTION, MAX_PER_HOUR, HOUR_IN_MS, now, rateWriteOk);
      if !allowed {
        errors := [RATE_LIMITED];
        return RateLimited;
      }

      var valid, found := TestimonialRules.ValidateTestimonial(formData.name, formData.message, formData.rating);
      if !valid {
        errors := found;
        return Invalid;
      }

      var contentHash := ContentHash.GenerateHash(formData.message);
      if store.hashes.Unparsable? {
        return Aborted;
      }
      var existingHashes := ParsedOrEmpty(store.hashes, []);
      if contentHash in existingHashes {
        errors := [ALREADY_SENT];
        return Duplicate;
      }

      existingHashes := existingHashes + [contentHash];
      if !hashesWriteOk {
        errors := [SEND_FAILED];
        return SendFailed;
      }
      store.hashes := Holds(existingHashes);

      var testimonial := NewRecord(formData, id, date);
      if !store.approved.Unparsable? {
        var existingTestimonials := ParsedOrEmpty(store.approved, []) + [testimonial];
        if approvedWriteOk {
          store.approved := Holds(existingTestimonials);
        }
      }
      isSubmitted := true;
      return Accepted(testimonial);
    }

    /** The `setTimeout` callback after an acceptance: blank fields, five stars, form shown again. */
    method ResetAfterDelay()
      requires Valid()
      modifies this
      ensures Valid()
      ensures formData == BLANK && !isSubmitted && errors == old(errors)
    {
      formData := BLANK;
      isSubmitted := false;
    }
  }

  // ---------------------------------------------------------------------
  // Properties of the form's values

  /** After any input change the field holds a sanitized value: no leading white space, at most 500 code units. */
  lemma InputIsSanitized(d: FormData, f: Field, value: JsString)
    ensures var r := WithField(d, f, Sanitizer.SanitizeInput(value));
      && Sanitizer.Sanitized(if f == Name then r.name else if f == Message then r.message else r.treatment)
  {
  }

  /**
   * Since the message field is sanitized, it never exceeds 500 code units:
   * the upper message bound of the validator can only fail for text that
   * did not pass through the input handler.
   */
  lemma SanitizedMessageNeverTooLong(name: JsString, message: JsString, rating: int)
    requires Sanitizer.Sanitized(message)
    ensures TestimonialRules.Violated(TestimonialRules.MessageLength, name, message, rating) <==> |message| < 10
  {
  }

  // ---------------------------------------------------------------------
  // Submitting more than once

  /**
   * Typing the same name and message again after an acceptance and the
   * reset, and submitting, is turned away as a duplicate unless the rate
   * limit turns it away first. A rejected first attempt is simply retried.
   */
  method SubmitTwice(form: Form, typedName: JsString, typedMessage: JsString,
                     now1: int, now2: int, id1: JsString, id2: JsString, date1: JsString, date2: JsString)
    returns (first: Outcome, second: Outcome)
    requires form.Valid() && !form.isSubmitted
    requires form.formData.name == Sanitizer.SanitizeInput(typedName)
    requires form.formData.message == Sanitizer.SanitizeInput(typedMessage)
    modifies form, form.store
    ensures first.Accepted? && second != RateLimited ==> second == Duplicate
    ensures first.Accepted? && second == Duplicate ==> form.errors == [ALREADY_SENT]
  {
    var name, message, rating := form.formData.name, form.formData.message, form.formData.rating;
    first := form.HandleSubmit(now1, id1, date1, true, true, true);
    if first.Accepted? {
      RetypeAfterReset(form, typedName, typedMessage);
      ValidAtFiveStars(name, message, rating);
    }
    second := form.HandleSubmit(now2, id2, date2, true, true, true);
  }

  /** The delayed reset, then the name and the message typed in again. */
  method RetypeAfterReset(form: Form, typedName: JsString, typedMessage: JsString)
    requires form.Valid()
    modifies form
    ensures form.Valid() && !form.isSubmitted
    ensures form.formData == FormData(Sanitizer.SanitizeInput(typedName), Sanitizer.SanitizeInput(typedMessage), 5, [])
  {
    form.ResetAfterDelay();
    form.HandleInputChange(Name, typedName);
    form.HandleInputChange(Message, typedMessage);
  }

  /** Fields that passed validation with some rating still pass with the five stars the reset restores. */
  lemma ValidAtFiveStars(name: JsString, message: JsString, rating: int)
    requires TestimonialRules.Violations(name, message, rating) == []
    ensures TestimonialRules.Violations(name, message, 5) == []
  {
    TestimonialRules.ValidIffAllRulesHold(name, message, rating);
    TestimonialRules.ValidIffAllRulesHold(name, message, 5);
  }

  /**
   * A rejected attempt still uses up a slot: from an empty bucket, three
   * invalid submits within the same millisecond are reported as invalid,
   * and the fourth, with the same fields, is refused by the rate limit.
   */
  method RejectionsUseUpSlots(form: Form, now: int) returns (o1: Outcome, o2: Outcome, o3: Outcome, o4: Outcome)
    requires form.Valid() && !form.isSubmitted
    requires RateLimit.Bucket(form.store.rateBuckets, RateLimit.RateKey(TESTIMONIAL_ACTION)) == []
    requires TestimonialRules.Violations(form.formData.name, form.formData.message, form.formData.rating) != []
    modifies form, form.store
    ensures o1 == Invalid && o2 == Invalid && o3 == Invalid && o4 == RateLimited
  {
    assert RateLimit.Repeat(now, 0) == [];
    o1 := SubmitInBurst(form, now, 0);
    o2 := SubmitInBurst(form, now, 1);
    o3 := SubmitInBurst(form, now, 2);
    o4 := SubmitInBurst(form, now, 3);
  }

  /** One submit of invalid fields after `k` attempts at the same instant. */
  method SubmitInBurst(form: Form, now: int, k: nat) returns (outcome: Outcome)
    requires form.Valid() && !form.isSubmitted && k <= MAX_PER_HOUR
    requires RateLimit.Bucket(form.store.rateBuckets, RateLimit.RateKey(TESTIMONIAL_ACTION)) == RateLimit.Repeat(now, k)
    requires TestimonialRules.Violations(form.formData.name, form.formData.message, form.formData.rating) != []
    modifies form, form.store
    ensures form.Valid() && !form.isSubmitted && form.formData == old(form.formData)
    ensures k < MAX_PER_HOUR ==> outcome == Invalid
    ensures k == MAX_PER_HOUR ==> outcome == RateLimited
    ensures RateLimit.Bucket(form.store.rateBuckets, RateLimit.RateKey(TESTIMONIAL_ACTION))
      == RateLimit.Repeat(now, if k < MAX_PER_HOUR then k + 1 else k)
  {
    RateLimit.BurstAtOneInstant(MAX_PER_HOUR, HOUR_IN_MS, now, k);
    outcome := form.HandleSubmit(now, [], [], true, true, true);
  }

  /**
   * The duplicate check compares hash tokens, not messages: once a message
   * starting with `Aa` is on record, a different message that starts with
   * `BB` and goes on alike is turned away as already sent.
   */
  method CollisionCountsAsDuplicate(form: Form, now: int, rest: JsString, id: JsString, date: JsString)
    returns (outcome: Outcome)
    requires form.Valid() && !form.isSubmitted
    requires form.formData.message == ['B' as int, 'B' as int] + rest
    requires form.store.hashes == Holds([ContentHash.HashToken(['A' as int, 'a' as int] + rest)])
    modifies form, form.store
    ensures outcome != RateLimited && outcome != Invalid ==> outcome == Duplicate
    ensures form.formData.message != ['A' as int, 'a' as int] + rest
  {
    ContentHash.DistinctMessagesShareToken(rest);
    outcome := form.HandleSubmit(now, id, date, true, true, true);
  }
}
