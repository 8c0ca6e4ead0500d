# Employee-settings form validation

This project models the server-side validation of the two employee-settings
forms in the `custom_form` Drupal module:

- `CustomConfigFormAjax`, the form with live per-field validation. It has
  three checks, for the name, the phone number and the email address. Each
  check works on the trimmed value. One AJAX callback per field reports its
  check as a message for that field. Its `validateForm` records at most one
  error: "Empty fields present" or "Invalid Input Present".
- `CustomConfigForm`, the plain form. Its `validateForm` makes a run of
  conditional `setErrorByName` calls in a fixed order. The empty-field error
  comes alone. Otherwise come the name-length, name-pattern, phone and email
  rules, and each can record an error of its own.

The model has six modules:

- `Php`: the PHP built-ins the forms rely on. These are `trim` with its six
  stripped bytes, `empty()` (true on `""` and `"0"`), `explode`, and the
  `$` anchor of a non-`/D` `preg_match`, which also matches before a final
  newline.
- `Patterns`: the byte classes of the regular expressions and the email
  domain allow-list.
- `FormApi`: the submitted values, and the form state. The form state is a
  class whose `errors` sequence keeps each `setErrorByName` call in order.
- `CustomConfigFormAjax` and `CustomConfigForm`: the two forms.
- `FormAgreement`: how the two forms' name policies relate.

PHP strings are byte strings. `Php.Byte` is a character below 256, and
`strlen` and the patterns work on bytes.

The plain form's `validateForm` is a method that appends to
`FormState.errors`. It is proved against `CustomConfigForm.Attempts`. That
function keeps, in the source's order, the rules whose tests fail. The AJAX
form's `validateForm` is proved against
`CustomConfigFormAjax.SubmissionErrors` in the same way.

The RFC syntax check of the email library is not visible. Every member that
needs it takes it as a parameter, `isRfcValid`.

## Model

| member | source | states |
|---|---|---|
| Php.Trim | web/modules/custom/custom_form/src/Form/CustomConfigForm.php:83-87 | the result starts and ends with no byte of " \t\n\r\0\x0B" and is no longer than the input |
| Php.TrimStrips | web/modules/custom/custom_form/src/Form/CustomConfigForm.php:83-87 | trim removes only stripped bytes, and only from the two ends |
| Php.TrimUnique | web/modules/custom/custom_form/src/Form/CustomConfigForm.php:83-87 | any end-stripping of the input that leaves no strippable byte at either end is trim's result |
| Php.TrimIdempotent | web/modules/custom/custom_form/src/Form/CustomConfigFormAjax.php:257-265 | trimming twice is trimming once |
| Php.TrimOfTrimmed | web/modules/custom/custom_form/src/Form/CustomConfigFormAjax.php:113 | trim leaves a value with no strippable byte at either end unchanged |
| Php.AnchoredOnTrimmed | web/modules/custom/custom_form/src/Form/CustomConfigForm.php:106-111 | on a trimmed value, `/^X$/` matches exactly when the whole value is in X; the final-newline case cannot arise |
| Php.IsEmpty | web/modules/custom/custom_form/src/Form/CustomConfigForm.php:99 | PHP empty() on a string: true exactly for "" and "0" |
| Php.PregMatchAnchored | web/modules/custom/custom_form/src/Form/CustomConfigForm.php:106-111 | preg_match of "/^X$/" without the D modifier: the subject is in X, or is in X once a single final newline is dropped |
| Php.Explode | web/modules/custom/custom_form/src/Form/CustomConfigForm.php:117 | explode gives at least one piece, and no piece holds the delimiter |
| Php.ImplodeExplode | web/modules/custom/custom_form/src/Form/CustomConfigForm.php:117 | joining the pieces with the delimiter gives back the input |
| Php.ExplodeImplode | web/modules/custom/custom_form/src/Form/CustomConfigForm.php:117 | splitting a join of delimiter-free pieces gives back the pieces |
| Php.ExplodeWithoutDelimiter | web/modules/custom/custom_form/src/Form/CustomConfigForm.php:117 | a string without the delimiter is one piece, itself |
| Php.ExplodeLastDelimiter | web/modules/custom/custom_form/src/Form/CustomConfigForm.php:117-119 | the text after the last delimiter is the last piece |
| Php.LastPieceFollowsLastDelimiter | web/modules/custom/custom_form/src/Form/CustomConfigForm.php:117-119 | the popped piece is a delimiter-free suffix; it is the whole string or follows a delimiter |
| Php.LastPieceIs | web/modules/custom/custom_form/src/Form/CustomConfigForm.php:117-119 | the popped piece is x exactly when the string is x or ends with the delimiter and x |
| Patterns.StrictName | web/modules/custom/custom_form/src/Form/CustomConfigFormAjax.php:112 | `[a-zA-Z ]{5,30}`: 5 to 30 bytes, each an ASCII letter or a space |
| Patterns.IsLenientNameByte | web/modules/custom/custom_form/src/Form/CustomConfigForm.php:92 | the class `[a-zA-Z-' ]`: an ASCII letter, "-" (a literal after the range), "'" or a space |
| Patterns.LenientName | web/modules/custom/custom_form/src/Form/CustomConfigForm.php:92 | `[a-zA-Z-' ]*`: every byte is an ASCII letter, "-", "'" or a space; no length bound |
| Patterns.TenDigitPhone | web/modules/custom/custom_form/src/Form/CustomConfigForm.php:94 | `[1-9][0-9]{9}`: exactly ten bytes, the first from 1 to 9, the other nine digits |
| Patterns.TenDigitPhoneIff | web/modules/custom/custom_form/src/Form/CustomConfigForm.php:94 | `[1-9][0-9]{9}` is ten digits whose first is not 0 |
| Patterns.AllowedDomainsShape | web/modules/custom/custom_form/src/Form/CustomConfigForm.php:96 | the allow-list `$allowed_domains` holds five distinct domains, none with an "@", an upper-case letter or a trim byte |
| Patterns.EmailDomain | web/modules/custom/custom_form/src/Form/CustomConfigForm.php:117-119 | the popped piece holds no "@", ends the address, and is the whole address or follows an "@" |
| Patterns.DomainAllowed | web/modules/custom/custom_form/src/Form/CustomConfigForm.php:121 | in_array of the popped piece in the five allowed domains, compared byte for byte |
| Patterns.DomainAllowedIff | web/modules/custom/custom_form/src/Form/CustomConfigForm.php:117-121 | the domain test passes exactly when the address is an allowed domain or ends with "@" and one |
| FormApi.FormState.SetErrorByName | web/modules/custom/custom_form/src/Form/CustomConfigForm.php:100 | each call appends one (key, message) error and keeps the earlier ones |
| FormApi.AnyFieldEmpty | web/modules/custom/custom_form/src/Form/CustomConfigForm.php:99 | some field, once trimmed, is "" or "0" |
| CustomConfigFormAjax.CheckNameValidity | web/modules/custom/custom_form/src/Form/CustomConfigFormAjax.php:110-118 | true iff the trimmed name is 5 to 30 bytes, each an ASCII letter or a space |
| CustomConfigFormAjax.CheckPhoneValidity | web/modules/custom/custom_form/src/Form/CustomConfigFormAjax.php:131-139 | true iff the trimmed number is ten digits with a first digit from 1 to 9 |
| CustomConfigFormAjax.CheckEmailValidity | web/modules/custom/custom_form/src/Form/CustomConfigFormAjax.php:152-172 | false when the RFC check fails on the trimmed address; otherwise true iff the text after its last "@" is one of the five domains, compared case-sensitively |
| CustomConfigFormAjax.CheckEmailBySuffix | web/modules/custom/custom_form/src/Form/CustomConfigFormAjax.php:152-172 | true iff RFC-valid and the trimmed address is an allowed domain or ends with "@" and one |
| CustomConfigFormAjax.ChecksIgnorePreTrim | web/modules/custom/custom_form/src/Form/CustomConfigFormAjax.php:257-265 | each check gives the same answer on the raw and on the pre-trimmed value |
| CustomConfigFormAjax.ValidateName | web/modules/custom/custom_form/src/Form/CustomConfigFormAjax.php:185-196 | one command for "#name", "Valid" iff the name rule holds, else "Invalid Name." |
| CustomConfigFormAjax.ValidateEmail | web/modules/custom/custom_form/src/Form/CustomConfigFormAjax.php:209-221 | one command for "#email", "Valid" iff RFC-valid at an allowed domain, else "Invalid email address." |
| CustomConfigFormAjax.ValidatePhone | web/modules/custom/custom_form/src/Form/CustomConfigFormAjax.php:234-246 | one command for "#phone", "Valid" iff the phone rule holds, else "Invalid mobile number." |
| CustomConfigFormAjax.FieldsValid | web/modules/custom/custom_form/src/Form/CustomConfigFormAjax.php:272-273 | the name, email and phone checks all pass on the submitted values |
| CustomConfigFormAjax.SubmissionErrors | web/modules/custom/custom_form/src/Form/CustomConfigFormAjax.php:268-275 | the empty-field error if a trimmed field is empty; else the validity error if some check fails; else no error |
| CustomConfigFormAjax.ValidateForm | web/modules/custom/custom_form/src/Form/CustomConfigFormAjax.php:256-276 | appends exactly the errors SubmissionErrors gives and changes nothing else |
| CustomConfigFormAjax.SubmissionAtMostOneError | web/modules/custom/custom_form/src/Form/CustomConfigFormAjax.php:268-275 | at most one error per submission |
| CustomConfigFormAjax.SubmissionEmptyFieldsOnly | web/modules/custom/custom_form/src/Form/CustomConfigFormAjax.php:268-270 | a field that trims to "" or "0" gives the empty-field error alone, whatever the checks say |
| CustomConfigFormAjax.SubmissionValidity | web/modules/custom/custom_form/src/Form/CustomConfigFormAjax.php:272-275 | with no field empty: the validity error iff some check fails, no error iff all pass |
| CustomConfigFormAjax.PhoneLeadingZeroRefused | web/modules/custom/custom_form/src/Form/CustomConfigFormAjax.php:131-139 | "0123456789" is refused |
| CustomConfigFormAjax.PhoneExampleAccepted | web/modules/custom/custom_form/src/Form/CustomConfigFormAjax.php:131-139 | "9876543210" is accepted |
| CustomConfigFormAjax.DomainOf | web/modules/custom/custom_form/src/Form/CustomConfigFormAjax.php:163-165 | the domain of local + "@" + domain is that domain when it holds no "@" |
| CustomConfigFormAjax.CheckEmailAt | web/modules/custom/custom_form/src/Form/CustomConfigFormAjax.php:152-172 | on a trimmed address, the check is the RFC check plus membership of its domain in the list |
| CustomConfigFormAjax.EmailOtherDomainRefused | web/modules/custom/custom_form/src/Form/CustomConfigFormAjax.php:167-169 | an address at hotmail.com is refused |
| CustomConfigFormAjax.EmailDomainCaseSensitive | web/modules/custom/custom_form/src/Form/CustomConfigFormAjax.php:167-169 | a domain holding an upper-case letter is refused, whatever the RFC check says: the comparison is case-sensitive |
| CustomConfigFormAjax.EmailWithoutAtRefused | web/modules/custom/custom_form/src/Form/CustomConfigFormAjax.php:163-169 | an address without "@" that is not itself an allowed domain is refused, whatever the RFC check says |
| CustomConfigFormAjax.EmailNotAnAddressRefused | web/modules/custom/custom_form/src/Form/CustomConfigFormAjax.php:152-172 | "not-an-email" is refused |
| CustomConfigFormAjax.EmailAllowedAccepted | web/modules/custom/custom_form/src/Form/CustomConfigFormAjax.php:156-170 | an RFC-valid address at gmail.com is accepted |
| CustomConfigForm.SelectMembers | web/modules/custom/custom_form/src/Form/CustomConfigForm.php:99-125 | the rules kept are exactly those whose tests fail |
| CustomConfigForm.RunTests | web/modules/custom/custom_form/src/Form/CustomConfigForm.php:99-121 | the six tests of validateForm on the trimmed values: some field empty, name over 30 bytes, name pattern, phone pattern, RFC check, domain on the list |
| CustomConfigForm.Fires | web/modules/custom/custom_form/src/Form/CustomConfigForm.php:99-124 | which setErrorByName call runs: the empty-field one when a field is empty; otherwise each name and phone rule on its own failing test, the RFC error on RFC failure, and the domain error only when the RFC check passes and the domain is off the list |
| CustomConfigForm.FindingsMembers | web/modules/custom/custom_form/src/Form/CustomConfigForm.php:99-125 | a rule's error is attempted exactly when its test fails |
| CustomConfigForm.Attempts | web/modules/custom/custom_form/src/Form/CustomConfigForm.php:99-125 | the errors of the rules whose tests fail, one per rule, in the order validateForm tries them, with the empty-field error shutting out the rest |
| CustomConfigForm.SelectKeepsOrder | web/modules/custom/custom_form/src/Form/CustomConfigForm.php:99-125 | the kept rules stay in rule order |
| CustomConfigForm.AttemptNamePhone | web/modules/custom/custom_form/src/Form/CustomConfigForm.php:103-111 | appends the length, pattern and phone errors whose tests fail, in that order |
| CustomConfigForm.AttemptEmail | web/modules/custom/custom_form/src/Form/CustomConfigForm.php:112-124 | appends "Invalid email address!" on RFC failure, else "Domain name not allowed" outside the list, else nothing |
| CustomConfigForm.ValidateForm | web/modules/custom/custom_form/src/Form/CustomConfigForm.php:81-127 | appends exactly the attempts Attempts gives and changes nothing else |
| CustomConfigForm.AttemptsWhenFilled | web/modules/custom/custom_form/src/Form/CustomConfigForm.php:102-125 | with no field empty, the attempts are the name and phone errors followed by the email errors |
| CustomConfigForm.EmptyFieldsOnly | web/modules/custom/custom_form/src/Form/CustomConfigForm.php:99-100 | a field that trims to "" or "0" gives the empty-field error and nothing else |
| CustomConfigForm.NameLengthRule | web/modules/custom/custom_form/src/Form/CustomConfigForm.php:103-105 | the length error is attempted iff the trimmed name is over 30 bytes, so not at exactly 30 |
| CustomConfigForm.NamePatternRule | web/modules/custom/custom_form/src/Form/CustomConfigForm.php:106-108 | the pattern error is attempted iff the name holds a byte other than a letter, "-", "'" or space |
| CustomConfigForm.BothNameErrors | web/modules/custom/custom_form/src/Form/CustomConfigForm.php:103-108 | an overlong name with a refused byte gets both name errors, first and second |
| CustomConfigForm.PhoneRule | web/modules/custom/custom_form/src/Form/CustomConfigForm.php:109-111 | the phone error is attempted iff the number is not ten digits with a first digit from 1 to 9 |
| CustomConfigForm.EmailRule | web/modules/custom/custom_form/src/Form/CustomConfigForm.php:112-124 | "Invalid email address!" iff the RFC check fails; "Domain name not allowed" iff it passes and the domain is not listed; never both |
| CustomConfigForm.AttemptsInRuleOrder | web/modules/custom/custom_form/src/Form/CustomConfigForm.php:99-125 | the attempts follow the rule order, each rule at most once |
| CustomConfigForm.NoAttemptsIff | web/modules/custom/custom_form/src/Form/CustomConfigForm.php:99-125 | no error iff no field is empty and every rule passes |
| FormAgreement.StrictAcceptanceImpliesPlain | web/modules/custom/custom_form/src/Form/CustomConfigFormAjax.php:256-276 | values the AJAX form accepts give no error in the plain form either |
| FormAgreement.ShortNameDivergence | web/modules/custom/custom_form/src/Form/CustomConfigForm.php:103-108 | the name "Al" passes both name rules of the plain form, but the AJAX name check refuses it |

## Left out

- Drupal plumbing is not modelled: `buildForm`, `parent::validateForm` and `getEditableConfigNames`.
- `submitForm` is not modelled: config saves under `custom_form.settings` and `custom_form.settings.ajax`, and the messenger, are framework I/O.
- The RFC syntax check of the email library is a parameter, `isRfcValid`, because its rules are not visible.
- How Drupal stores errors under one key is not modelled. Drupal keeps the first error set under a key and ignores later ones, so of two `name_error` calls only the first message is kept. The model keeps every `setErrorByName` call, in order.
- `$this->t()` translation is not modelled. Messages are the untranslated strings.
- `getValue` is assumed to return a string. A non-string value, or `trim` on null, is not modelled.
- `in_array` compares with loose `==`. No allowed domain is a numeric string, so this is byte equality, and the model uses that.
- The `gender` field is not validated by either form, so it is not part of `FormApi.FormValues`.
- Drupal's own element validation is not modelled. It checks `#maxlength` on the server and records its own error, for example for a name of 26 to 30 characters in the plain form, whose `#maxlength` is 25. It also validates the `email` element. These errors come from outside `validateForm`.
- The pure HTML hints in `buildForm` are not modelled. These are `#size`, and the phone `#attributes` `pattern` `[7-9]{1}[0-9]{9}` and `maxlength`. The server-side rule `[1-9][0-9]{9}` is the one modelled.
- AJAX transport is reduced to the list of commands in a fresh `AjaxResponse`. Rendering, and the order in which keyup responses arrive, are not modelled.
- `OneTimeLoginLinkForm`, `HelloController` and `count.api.php` hold no validation logic and are not part of this model.
