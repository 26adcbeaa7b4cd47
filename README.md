# La Vie Esbella site: input security and submission flows

This project models the client-side logic of a spa's one-page website. A
small utility class, `SecurityUtils`, sanitizes form input and validates
e-mail addresses and phone numbers. It also keeps a sliding-window rate
limit per action in the browser's `localStorage`, checks testimonials
against four rules, and fingerprints a message with a 32-bit rolling hash.
Several components are built on those helpers:

- the testimonial form runs its gates in a fixed order: the rate limit, then validation, then the duplicate hash. It then records the hash and the testimonial;
- the testimonials section shows five built-in testimonials and the stored ones in a carousel, publishes new ones and deletes by id;
- the contact form runs a rate limit, then accumulates field errors;
- the gallery runs a lightbox whose index wraps around at both ends.

How the model represents the system:

- Strings are sequences of UTF-16 code units, `JsString`, because `length`, `charCodeAt`, `substring` and `includes` all count code units.
- `localStorage` is a class, `Storage.LocalStorage`, with one field per kind of key. Each slot is missing, holds a parsed value, or holds text that `JSON.parse` rejects.
- Parameters stand in for the clock, the random id, the ISO date and the success of each `setItem`.
- Each component is a class whose fields are its React state. Each handler is a method whose `ensures` gives the new state as a function of the old.
- Modules follow the program's files:

| module | models |
|---|---|
| `JsString` | code-unit strings |
| `Sanitizer` | `sanitizeInput` |
| `Validators` | `isValidEmail`, `isValidPhone` |
| `RateLimit` | `checkRateLimit` |
| `TestimonialRules` | `validateTestimonial` |
| `ContentHash` | `generateHash` |
| `Storage` | `localStorage` |
| `TestimonialForm` | `TestimonialForm.tsx` |
| `Testimonials` | `Testimonials.tsx` |
| `Contact` | `Contact.tsx` |
| `Gallery` | `Gallery.tsx` |
| `Modular` | remainder facts shared by the carousel and the lightbox |

## Behaviour worth knowing

- Sanitizing is not idempotent. Every entity it writes starts with `&`, so `"&"` becomes `"&amp;"`, which becomes `"&amp;amp;"` (`Sanitizer.SanitizeNotIdempotent`).
- A rejected testimonial still uses up a rate-limit slot. The rate-limit check runs first and records the attempt before validation (`TestimonialForm.RejectionsUseUpSlots`).
- Distinct testimonial texts can be refused as already sent. The duplicate check compares hash tokens of 1–6 characters, not texts (`TestimonialForm.CollisionCountsAsDuplicate`).
- Storage errors are not all silent. A failed write of the hash list ends in the generic error message, and nothing is published. A hash list that does not parse throws out of the handler. These are the outcomes `SendFailed` and `Aborted` of `TestimonialForm.Form.HandleSubmit`.
- The e-mail pattern also rejects `@` after the last dot, as well as white space (`Validators.EmailIsPattern`).

## Model

| member | source | states |
|---|---|---|
| JsString.Trim | src/utils/security.ts:17 | `trim()`: the result is a slice of the input with only white space before and after it; it starts and ends with a non-space, and equals the input when that is already trimmed |
| JsString.TrimCutsSpace | src/utils/security.ts:17 | what trimming cuts off before and after the kept infix is all white space |
| JsString.Prefix | src/utils/security.ts:18 | `substring(0, 500)`: the first `min(n, length)` code units |
| Sanitizer.EscapeHtml | src/utils/security.ts:7-12 | the output has none of `< > " '`, is no shorter than the input, and is the input itself when that has no special character |
| Sanitizer.EscapeHtmlAppend | src/utils/security.ts:7-12 | escaping distributes over concatenation: each code unit is replaced on its own |
| Sanitizer.EscapeHtmlUnit | src/utils/security.ts:7-12 | a special character becomes its entity (`&amp;`, `&lt;`, `&gt;`, `&quot;`, `&#x27;`), and any other code unit is kept |
| Sanitizer.WordRun | src/utils/security.ts:14 | `\w+` is greedy: every unit before the end of the run is a word character, and the next one is not |
| Sanitizer.HandlerMatch | src/utils/security.ts:14 | a match of `on\w+=` is at least four units long and ends in `=` |
| Sanitizer.HandlerMatchIsRegex | src/utils/security.ts:14 | a match is found exactly when the text starts with `on` in any case, one or more word characters and `=`, and the match is that whole text |
| Sanitizer.MatchLength | src/utils/security.ts:13-16 | the length of the match of one of the four patterns at a position, never past the end |
| Sanitizer.Strip | src/utils/security.ts:13-16 | one global replace by the empty string never lengthens the text and adds no markup character |
| Sanitizer.StripScripts | src/utils/security.ts:13-16 | the four passes never lengthen the text and add no markup character |
| Sanitizer.SanitizeInput | src/utils/security.ts:4-18 | empty in, empty out; otherwise at most 500 units, no leading white space, and none of `< > " '` |
| Sanitizer.StripWithoutMatch | src/utils/security.ts:13-16 | a replace that finds no match returns its input |
| Sanitizer.NoColonNoEqualsNoMatch | src/utils/security.ts:13-16 | every match of the four patterns ends in `:` or `=`, so text without both is never matched |
| Sanitizer.StripScriptsWithoutMatch | src/utils/security.ts:13-16 | the four passes leave text in which no pattern matches unchanged |
| Sanitizer.SanitizeKeepsClean | src/utils/security.ts:6-18 | sanitizing is the identity on trimmed text of at most 500 units without `& < > " '` and without a pattern match |
| Sanitizer.SanitizeIsEscapeAlone | src/utils/security.ts:6-18 | when escaping gives trimmed, short text without `:` or `=`, the result is the escaped text |
| Sanitizer.SanitizeNotIdempotent | src/utils/security.ts:7-12 | `"&"` gives `"&amp;"`, and `"&amp;"` gives `"&amp;amp;"` |
| Sanitizer.StripHandlerExample | src/utils/security.ts:14 | `"monkey="` becomes `"m"` |
| Sanitizer.StripKeepsPrefix | src/utils/security.ts:13-16 | a prefix in which no match starts is kept, and the pass continues on the rest |
| Sanitizer.StripJavajava | src/utils/security.ts:13 | `"java" + "javascript:" + "script:"` loses only the middle match |
| Sanitizer.StripReassemblesExample | src/utils/security.ts:13 | the single pass turns `"javajavascript:script:"` into `"javascript:"`, a new match |
| Sanitizer.SanitizeDropsTypedTrailingSpace | src/utils/security.ts:17 | white space typed after a clean value is removed, giving the value back |
| Validators.IndexOf | src/utils/security.ts:23 | the first position of a unit, or -1 exactly when the unit is absent |
| Validators.IsValidEmail | src/utils/security.ts:22-25 | the check on an address, written without the regular expression; `EmailIsPattern` proves it equal to the pattern plus the length bound |
| Validators.EmailIsPattern | src/utils/security.ts:22-25 | the explicit check holds exactly when the text matches `^[^\s@]+@[^\s@]+\.[^\s@]+$` and has at most 100 units |
| Validators.PatternIsValid | src/utils/security.ts:23 | any local part, host and top-level part without white space or `@`, joined by `@` and `.`, form a valid address when short enough |
| Validators.ShortEmailValid | src/utils/security.ts:22-25 | `"a@b.co"` is valid |
| Validators.NoAtInvalid | src/utils/security.ts:22-25 | `"not-an-email"` is invalid |
| Validators.LongEmailInvalid | src/utils/security.ts:24 | an address of 106 units matches the pattern but fails the length bound |
| Validators.EmailSurvivesSanitizing | src/utils/security.ts:4-25 | a valid address without `& < > " ' : =` is left as it is by the input handler |
| Validators.IsValidPhone | src/utils/security.ts:28-31 | the whole text is 8 to 15 units from `[0-9\s\-\+\(\)]` |
| Validators.HyphensAreAPhone | src/utils/security.ts:28-31 | eight hyphens pass, although they contain no digit |
| Validators.PhoneRejectsLetter | src/utils/security.ts:29 | one letter anywhere makes a phone invalid |
| Validators.PhoneSurvivesSanitizing | src/utils/security.ts:4-31 | a valid phone without outer white space is left as it is by the input handler |
| Storage.ParsedOrEmpty | src/utils/security.ts:38-42 | a missing or unparsable slot reads as the empty list, and a parsed one reads as its value |
| Storage.LocalStorage.constructor | src/utils/security.ts:39 | an empty store: every slot is missing, and so reads as `[]` |
| RateLimit.RateKey | src/utils/security.ts:35 | the key is `rate_limit_` followed by the action |
| RateLimit.RateKeyInjective | src/utils/security.ts:35 | two actions share a key only when they are equal |
| RateLimit.Recent | src/utils/security.ts:45 | a timestamp is kept exactly when it was stored and `now - t < window`, and the list never grows |
| RateLimit.RecentCounts | src/utils/security.ts:45 | every copy of a timestamp inside the window is kept, and every copy of one outside it is dropped |
| RateLimit.Allowed | src/utils/security.ts:47-49 | the check passes when fewer than `max` kept timestamps remain |
| RateLimit.After | src/utils/security.ts:51-53 | the bucket written after a passing check: the kept timestamps and then `now` |
| RateLimit.CheckRateLimit | src/utils/security.ts:34-58 | answers whether fewer than `max` recent attempts are stored; on success it writes kept ++ [now] unless the write fails, and still answers true; a refusal and every other key are left alone |
| RateLimit.AcceptedBucketBounded | src/utils/security.ts:47-53 | a bucket written by an accepted check holds at most `max` timestamps |
| RateLimit.AcceptedBucketFresh | src/utils/security.ts:45-53 | every timestamp in a written bucket is inside the window |
| RateLimit.BurstAtOneInstant | src/utils/security.ts:45-53 | from an empty bucket at one instant, the first `max` checks pass and then every check fails |
| RateLimit.RecentKeepsAll | src/utils/security.ts:45 | timestamps all inside the window are all kept |
| RateLimit.RecoveryAfterWindow | src/utils/security.ts:45-53 | once every timestamp has aged out, the next check passes and starts over with `[now]` |
| RateLimit.TwoPerSecondExample | src/utils/security.ts:34-58 | with limit 2 per second: true, true, false, and true again once the second is over |
| RateLimit.OutageExample | src/utils/security.ts:52-56 | when every write fails, a limit of one lets every check through |
| TestimonialRules.Lowered | src/utils/security.ts:78 | `toLowerCase` unit by unit, as far as the banned words can tell |
| TestimonialRules.HasBannedWord | src/utils/security.ts:76-81 | the lowered message contains one of `spam`, `fake`, `bot`, `test` |
| TestimonialRules.Violations | src/utils/security.ts:61-84 | at most one entry per rule, so at most four |
| TestimonialRules.ViolationsSpec | src/utils/security.ts:61-84 | a rule is listed exactly when it is violated, and the rules come in check order |
| TestimonialRules.ValidateTestimonial | src/utils/security.ts:61-84 | the error list is one message per violated rule, in order, and `valid` holds exactly when it is empty |
| TestimonialRules.MessagesDistinct | src/utils/security.ts:64-81 | the four messages differ |
| TestimonialRules.ErrorReportedIffViolated | src/utils/security.ts:61-84 | a rule's message is reported exactly when the rule is violated |
| TestimonialRules.AtMostFourErrors | src/utils/security.ts:61-84 | there are never more than four errors |
| TestimonialRules.ValidIffAllRulesHold | src/utils/security.ts:61-84 | valid exactly when the name has 2–50 units, the message 10–500, the rating is 1–5 and no banned word occurs |
| TestimonialRules.ShortNameRejected | src/utils/security.ts:64-66 | a one-unit name is the first error reported |
| TestimonialRules.RatingOutOfRangeRejected | src/utils/security.ts:72-74 | ratings 0 and 6 are reported |
| TestimonialRules.BannedWordAnyCaseRejected | src/utils/security.ts:76-81 | a banned word in any mix of case anywhere in the message is reported |
| TestimonialRules.SpamRejected | src/utils/security.ts:76-81 | the word `spam` is reported |
| TestimonialRules.NoBannedLetterNoBannedWord | src/utils/security.ts:76-81 | a message without `s`, `f` and `b` in either case has no banned word |
| TestimonialRules.AnaAccepted | src/utils/security.ts:61-84 | name `Ana`, message `Ótimo atendimento, recomendo` and five stars break no rule |
| ContentHash.ToInt32 | src/utils/security.ts:92 | the result is a signed 32-bit value congruent to the input modulo 2^32 |
| ContentHash.ToInt32Congruent | src/utils/security.ts:91-92 | numbers congruent modulo 2^32 convert alike |
| ContentHash.ShiftLeft5 | src/utils/security.ts:91 | `hash << 5` on the 32-bit value |
| ContentHash.Step | src/utils/security.ts:91-92 | one turn of the loop; `StepIsTimes31` proves it equal to `31·h + c` reduced to 32 bits |
| ContentHash.RollingHash | src/utils/security.ts:88-93 | the hash after every prefix is a signed 32-bit value |
| ContentHash.StepIsTimes31 | src/utils/security.ts:91-92 | `((h << 5) - h) + c`, then `& hash`, is `31·h + c` reduced to 32 bits |
| ContentHash.RollingHashIsPolynomial | src/utils/security.ts:88-93 | the hash is the base-31 polynomial of the code units, reduced to 32 bits |
| ContentHash.SameHashExtends | src/utils/security.ts:89-93 | texts with equal hashes keep equal hashes after the same suffix |
| ContentHash.Base36 | src/utils/security.ts:94 | `toString(36)`: at least one digit of `[0-9a-z]`, and no leading `0` except for zero |
| ContentHash.Base36RoundTrip | src/utils/security.ts:94 | reading the numeral back gives the number |
| ContentHash.Base36Length | src/utils/security.ts:94 | a number below 36^k has at most k digits |
| ContentHash.HashToken | src/utils/security.ts:94 | `Math.abs(hash).toString(36)` |
| ContentHash.GenerateHash | src/utils/security.ts:87-95 | the loop returns the base-36 form of the absolute value of the rolling hash |
| ContentHash.TokenShape | src/utils/security.ts:94 | a token is 1 to 6 characters of `[0-9a-z]` |
| ContentHash.EmptyTokenIsZero | src/utils/security.ts:88-94 | the empty text hashes to `"0"` |
| ContentHash.TokensEqualIff | src/utils/security.ts:94 | two tokens are equal exactly when the hashes have equal absolute values |
| ContentHash.OppositeHashesCollide | src/utils/security.ts:94 | hashes `h` and `-h` give the same token |
| ContentHash.AaBbCollide | src/utils/security.ts:89-93 | `"Aa"` and `"BB"` both hash to 2112 |
| ContentHash.DistinctMessagesShareToken | src/utils/security.ts:87-95 | any different texts starting `Aa` and `BB` and continuing alike share a token |
| TestimonialForm.WithField | src/components/TestimonialForm.tsx:42-49 | only the named field changes |
| TestimonialForm.NewRecord | src/components/TestimonialForm.tsx:92-98 | the record carries the form fields, the fresh id and date, `approved` true and the role `Cliente` |
| TestimonialForm.Form.constructor | src/components/TestimonialForm.tsx:21-29 | blank fields, five stars, no errors, not submitted |
| TestimonialForm.Form.HandleInputChange | src/components/TestimonialForm.tsx:42-49 | the named field becomes `sanitizeInput(value)`, errors are cleared, and every field stays sanitized |
| TestimonialForm.Form.HandleRatingChange | src/components/TestimonialForm.tsx:51-54 | only the rating changes, and errors are cleared |
| TestimonialForm.Form.HandleSubmit | src/components/TestimonialForm.tsx:56-122 | only while the form is shown; the gates run in order (rate limit, validation, hash list parse, duplicate) with their messages; a rejection changes neither stored list, the fields nor the submitted flag; an acceptance appends the token once and the record at the end, swallowing a storage error for the record |
| TestimonialForm.Form.ResetAfterDelay | src/components/TestimonialForm.tsx:112-115 | blank fields, five stars, not submitted |
| TestimonialForm.InputIsSanitized | src/components/TestimonialForm.tsx:42-49 | after any input change the field has at most 500 units and no leading white space |
| TestimonialForm.SanitizedMessageNeverTooLong | src/components/TestimonialForm.tsx:46 | a message typed into the form can only fail the length rule for being too short |
| TestimonialForm.SubmitTwice | src/components/TestimonialForm.tsx:74-89 | after an acceptance, the reset and the same name and message typed again, the next submit is refused as a duplicate, unless the rate limit refuses it first |
| TestimonialForm.RetypeAfterReset | src/components/TestimonialForm.tsx:42-49 | after the reset and typing the name and message again, the fields are the sanitized texts with five stars and no treatment, and the form is shown |
| TestimonialForm.ValidAtFiveStars | src/utils/security.ts:61-84 | fields valid with some rating stay valid with the five stars the reset restores |
| TestimonialForm.SubmitInBurst | src/components/TestimonialForm.tsx:59-71 | after `k` attempts at one instant an invalid submit is reported invalid while `k < 3`, and the bucket grows by one |
| TestimonialForm.RejectionsUseUpSlots | src/components/TestimonialForm.tsx:59-71 | three invalid submits are followed by a rate-limit refusal |
| TestimonialForm.CollisionCountsAsDuplicate | src/components/TestimonialForm.tsx:74-79 | a message different from the one on record is refused as a duplicate when the tokens collide |
| Testimonials.DefaultsHaveNoId | src/components/Testimonials.tsx:30-71 | the five built-ins have no id and cannot be deleted |
| Testimonials.BuiltinAt | src/components/Testimonials.tsx:30-71 | each entry of `defaultTestimonials` has no id, five stars and no delete button |
| Testimonials.Published | src/components/Testimonials.tsx:88-93 | every field is copied, the role becomes `Cliente`, a falsy rating becomes 5, and the delete flag is set |
| Testimonials.RemoveId | src/components/Testimonials.tsx:109 | no kept record carries the id, and the list never grows |
| Testimonials.RemoveIdMembers | src/components/Testimonials.tsx:109 | the kept records are exactly the records whose id differs |
| Testimonials.NextSlide | src/components/Testimonials.tsx:127-129 | the next position is in range |
| Testimonials.PrevSlide | src/components/Testimonials.tsx:131-133 | the previous position is in range |
| Testimonials.Board.Shown | src/components/Testimonials.tsx:84 | the carousel list is never empty, and it is the loaded list once that is loaded |
| Testimonials.Board.constructor | src/components/Testimonials.tsx:73-82 | the list is the built-ins followed by the stored list, with a missing or unparsable one read as empty |
| Testimonials.Board.HandleNewTestimonial | src/components/Testimonials.tsx:86-106 | the published record goes to the end of the list and of the stored list; an unparsable list or a failed write leaves storage as it was |
| Testimonials.Board.OnFormSubmit | src/components/Testimonials.tsx:290-293 | publishes the record and hides the form |
| Testimonials.Board.HandleDeleteTestimonial | src/components/Testimonials.tsx:108-125 | removes every record with the id from the list and the stored list, and moves a position past the end to the last slide |
| Testimonials.Board.NextSlideClick | src/components/Testimonials.tsx:127-129 | the position advances modulo the list length |
| Testimonials.Board.PrevSlideClick | src/components/Testimonials.tsx:131-133 | the position goes back modulo the list length |
| Testimonials.Board.ToggleForm | src/components/Testimonials.tsx:277 | the form is shown or hidden |
| Testimonials.RemoveIdAppend | src/components/Testimonials.tsx:109 | filtering distributes over concatenation, so the order is kept |
| Testimonials.RemoveIdAbsent | src/components/Testimonials.tsx:109 | a list without the id is unchanged |
| Testimonials.RemoveIdIdempotent | src/components/Testimonials.tsx:109 | deleting twice is deleting once |
| Testimonials.DefaultsSurviveDelete | src/components/Testimonials.tsx:30-109 | any delete keeps the built-ins at the front |
| Testimonials.DeleteKeepsDefaults | src/components/Testimonials.tsx:73-109 | a list that starts with the built-ins still starts with them after a delete |
| Testimonials.PublishedIdempotent | src/components/Testimonials.tsx:88-93 | publishing a published record changes nothing |
| Testimonials.DeleteUndoesPublish | src/components/Testimonials.tsx:95-109 | deleting the id of a just-published record restores the list |
| Testimonials.SlidesInverse | src/components/Testimonials.tsx:127-133 | next and previous undo each other |
| Testimonials.SlidesWrap | src/components/Testimonials.tsx:127-133 | the last slide is followed by the first, and the first preceded by the last |
| Testimonials.SubmitFromSection | src/components/TestimonialForm.tsx:100-108 | one accepted submit leaves two new stored entries with the same id: the form's record and its published copy |
| Testimonials.StoredTwiceDeletedTogether | src/components/Testimonials.tsx:108-117 | the two entries share their id, and one delete removes both |
| Contact.ValidationErrors | src/components/Contact.tsx:55-67 | at most three messages, and none exactly when the name, e-mail and phone checks all pass |
| Contact.Fails | src/components/Contact.tsx:57-67 | a name under two units, an address `isValidEmail` rejects, or a phone that is filled in and that `isValidPhone` rejects |
| Contact.ValidationErrorsReportFailures | src/components/Contact.tsx:55-67 | a check's message is present exactly when the check fails |
| Contact.ValidationErrorsInCheckOrder | src/components/Contact.tsx:55-67 | the messages come in the order the checks run |
| Contact.CollectValidationErrors | src/components/Contact.tsx:55-67 | the handler's pushes build exactly `ValidationErrors` |
| Contact.MessagesDistinct | src/components/Contact.tsx:57-67 | the three messages differ |
| Contact.WithField | src/components/Contact.tsx:36-43 | only the named field changes |
| Contact.FieldValue | src/components/Contact.tsx:36-43 | writing a field's own value back changes nothing |
| Contact.ContactForm.constructor | src/components/Contact.tsx:7-16 | every field empty, no errors, not submitted |
| Contact.ContactForm.HandleInputChange | src/components/Contact.tsx:36-43 | the named field becomes `sanitizeInput(value)`, errors are cleared, and no field starts with white space |
| Contact.ContactForm.HandleSubmit | src/components/Contact.tsx:45-87 | only while the form is shown; the rate limit (5 per hour) runs first with its one message; otherwise the field errors are set, or the confirmation is shown exactly on a send; the fields never change |
| Contact.ContactForm.ResetAfterDelay | src/components/Contact.tsx:76-86 | all six fields empty, not submitted |
| Contact.SentIffFieldsValid | src/components/Contact.tsx:55-75 | a send passes exactly when the name has 2 units or more, the e-mail is valid and the phone is empty or valid |
| Contact.EmptyPhoneAccepted | src/components/Contact.tsx:65-67 | an empty phone is never reported |
| Contact.BlankFormErrors | src/components/Contact.tsx:57-63 | a blank form reports the name, then the e-mail |
| Contact.TypedTrailingSpaceDropped | src/components/Contact.tsx:36-43 | a space typed after a clean field value is dropped at once |
| Gallery.PrevIndex | src/components/Gallery.tsx:69-70 | the previous index stays in range |
| Gallery.NextIndex | src/components/Gallery.tsx:71-72 | the next index stays in range |
| Gallery.NextSteps | src/components/Gallery.tsx:71-72 | repeated steps stay in range |
| Gallery.KeyEffect | src/components/Gallery.tsx:77-83 | nothing happens while closed or for other keys, and the index stays in range |
| Gallery.Lightbox.constructor | src/components/Gallery.tsx:5-6 | nothing selected, grid hidden |
| Gallery.Lightbox.OpenLightbox | src/components/Gallery.tsx:56-59 | the selection becomes the index |
| Gallery.Lightbox.CloseLightbox | src/components/Gallery.tsx:61-64 | the selection is cleared |
| Gallery.Lightbox.NavigateImage | src/components/Gallery.tsx:66-74 | nothing while closed, otherwise one step back or forward with wrap-around |
| Gallery.Lightbox.HandleKeyPress | src/components/Gallery.tsx:77-83 | the selection after the key is `KeyEffect` of the one before |
| Gallery.Lightbox.SetGalleryShown | src/components/Gallery.tsx:108-125 | the grid is shown or hidden, and the selection is kept |
| Gallery.PrevNextInverse | src/components/Gallery.tsx:69-73 | next after previous, and previous after next, are the identity |
| Gallery.StepsAreModular | src/components/Gallery.tsx:69-73 | the wrap-around steps equal `(i + 1) mod n` and `(i - 1 + n) mod n` |
| Gallery.NextStepsModular | src/components/Gallery.tsx:71-72 | `k` steps forward land on `(i + k) mod n` |
| Gallery.FullCircle | src/components/Gallery.tsx:71-72 | `n` steps forward come back to the start |
| Gallery.ArrowsCancel | src/components/Gallery.tsx:77-83 | left then right, or right then left, is no move, and Escape closes |

## Left out

- Non-array JSON values in storage (for example `"5"` or `{}`) are left out. A slot is missing, a list, or unparsable. With such a value, `filter` or `push` would throw.
- `sanitizeInput` on a non-string or `null` argument is left out, because every caller passes a string.
- Unicode case mapping and white space: `toLowerCase` is modelled only as far as containment of the ASCII banned words can tell. That means ASCII letters plus the KELVIN SIGN. White space is the fixed set that JavaScript's `trim` and `\s` use.
- A rating that is not a whole number is left out: `NaN` or a fraction, which the form's star buttons never produce. Ratings are integers.
- `TestimonialForm.Form.HandleSubmit`: the two-second `await` is taken as atomic. Interleaving with other handlers is left out, and so is the `isSubmitting` flag, which only disables the button.
- Timers are explicit steps: `ResetAfterDelay` and the slide buttons. The five-second auto-advance of the carousel is `NextSlideClick` run by a timer.
- `crypto.randomUUID` and its `Math.random` fallback, `Date.now` and `new Date().toISOString()` become parameters.
- DOM effects are left out: `document.body.style.overflow`, `IntersectionObserver` visibility, rendering and styling.
- `Testimonials.Builtin` converts each built-in text code point by code point. Every text there lies in the Basic Multilingual Plane, where this equals UTF-16 (`JsString.BmpUnitsIsUtf16`).
- `Gallery.Lightbox.OpenLightbox` requires an index below nine, because the only callers are the nine thumbnails.
- `Testimonials.Board.HandleDeleteTestimonial` compares ids as strings. The TypeScript type also allows numeric ids, but every record here gets its id from the form as a string.
- `canDelete` false stands for a record without the property. A record the form stored and the section loads on a later visit has no `canDelete`, so it cannot be deleted from the page.
- The banned-word check, the duplicate check and the rate limit are client-side only. Clearing storage resets all of them. The model treats storage as given.
