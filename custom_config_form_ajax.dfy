/** CustomConfigFormAjax: the employee-settings form with live, per-field
    validation. Three checks classify the trimmed field values; one AJAX
    callback per field reports its check as a message aimed at the field's
    message box; validateForm reduces the checks to at most one error. */
module CustomConfigFormAjax {
  import opened Php
  import opened Patterns
  import opened FormApi

  /** checkNameValidity: preg_match("/^[a-zA-Z ]{5,30}$/") on the trimmed name. */
  function CheckNameValidity(name: Bytes): (valid: bool)
    ensures var t := Trim(name);
      valid <==> 5 <= |t| <= 30 && forall i | 0 <= i < |t| :: IsAsciiLetter(t[i]) || t[i] == ' '
  {
    var t := Trim(name);
    AnchoredOnTrimmed(StrictName, t);
    PregMatchAnchored(StrictName, t)
  }

  /** checkPhoneValidity: preg_match("/^[1-9][0-9]{9}$/") on the trimmed number. */
  function CheckPhoneValidity(phone: Bytes): (valid: bool)
    ensures var t := Trim(phone);
      valid <==> |t| == 10 && '1' <= t[0] <= '9' && AllDigits(t)
  {
    var t := Trim(phone);
    AnchoredOnTrimmed(TenDigitPhone, t);
    PregMatchAnchored(TenDigitPhone, t)
  }

  /** checkEmailValidity: the RFC syntax check on the trimmed address, then
      the text after its last "@" must be an allowed domain. */
  function CheckEmailValidity(isRfcValid: Bytes -> bool, email: Bytes): (valid: bool)
    ensures !isRfcValid(Trim(email)) ==> !valid
    ensures isRfcValid(Trim(email)) ==> (valid <==> EmailDomain(Trim(email)) in AllowedDomains)
  {
    var t := Trim(email);
    if !isRfcValid(t) then false else DomainAllowed(t)
  }

  /** The email check read off the trimmed address itself: RFC-valid, and
      either an allowed domain alone or ending with "@" and an allowed domain. */
  lemma CheckEmailBySuffix(isRfcValid: Bytes -> bool, email: Bytes)
    ensures var t := Trim(email);
      CheckEmailValidity(isRfcValid, email) <==> (isRfcValid(t) &&
        exists k | 0 <= k < |AllowedDomains| ::
          t == AllowedDomains[k] || HasSuffix(t, ['@'] + AllowedDomains[k]))
  {
    DomainAllowedIff(Trim(email));
  }

  /** Each check gives the same answer on a value that was trimmed already,
      so validateForm trimming before the checks trim again changes nothing. */
  lemma ChecksIgnorePreTrim(isRfcValid: Bytes -> bool, s: Bytes)
    ensures CheckNameValidity(Trim(s)) == CheckNameValidity(s)
    ensures CheckPhoneValidity(Trim(s)) == CheckPhoneValidity(s)
    ensures CheckEmailValidity(isRfcValid, Trim(s)) == CheckEmailValidity(isRfcValid, s)
  {
    TrimIdempotent(s);
  }

  /** new HtmlCommand($selector, $content). */
  datatype HtmlCommand = HtmlCommand(selector: string, content: string)

  /** The commands an AjaxResponse carries, in the order they were added. */
  datatype AjaxResponse = AjaxResponse(commands: seq<HtmlCommand>)

  /** A fresh response with one command: "Valid", or the field's message. */
  function FieldResponse(selector: string, valid: bool, invalidMessage: string): AjaxResponse {
    AjaxResponse([HtmlCommand(selector, if valid then "Valid" else invalidMessage)])
  }

  /** validateName: one command aimed at "#name". */
  function ValidateName(fullname: Bytes): (response: AjaxResponse)
    ensures |response.commands| == 1 && response.commands[0].selector == "#name"
    ensures response.commands[0].content == "Valid" <==> StrictName(Trim(fullname))
    ensures !StrictName(Trim(fullname)) ==> response.commands[0].content == "Invalid Name."
  {
    FieldResponse("#name", CheckNameValidity(fullname), "Invalid Name.")
  }

  /** validateEmail: one command aimed at "#email". */
  function ValidateEmail(isRfcValid: Bytes -> bool, email: Bytes): (response: AjaxResponse)
    ensures |response.commands| == 1 && response.commands[0].selector == "#email"
    ensures var t := Trim(email);
      response.commands[0].content == "Valid" <==> isRfcValid(t) && DomainAllowed(t)
    ensures response.commands[0].content in {"Valid", "Invalid email address."}
  {
    FieldResponse("#email", CheckEmailValidity(isRfcValid, email), "Invalid email address.")
  }

  /** validatePhone: one command aimed at "#phone". */
  function ValidatePhone(phone: Bytes): (response: AjaxResponse)
    ensures |response.commands| == 1 && response.commands[0].selector == "#phone"
    ensures response.commands[0].content == "Valid" <==> TenDigitPhone(Trim(phone))
    ensures !TenDigitPhone(Trim(phone)) ==> response.commands[0].content == "Invalid mobile number."
  {
    FieldResponse("#phone", CheckPhoneValidity(phone), "Invalid mobile number.")
  }

  const InvalidInputError := FormError("validity", "Invalid Input Present")

  /** All three checks pass on the submitted values. */
  predicate FieldsValid(isRfcValid: Bytes -> bool, values: FormValues) {
    CheckNameValidity(values.fullname) && CheckEmailValidity(isRfcValid, values.email)
    && CheckPhoneValidity(values.phone)
  }

  /** The errors validateForm records: the empty-field error takes
      precedence over the validity error, and nothing else is recorded. */
  function SubmissionErrors(isRfcValid: Bytes -> bool, values: FormValues): seq<FormError> {
    if AnyFieldEmpty(values) then [EmptyFieldsError]
    else if !FieldsValid(isRfcValid, values) then [InvalidInputError]
    else []
  }

  /** validateForm. */
  method ValidateForm(state: FormState, values: FormValues, isRfcValid: Bytes -> bool)
    modifies state
    ensures state.errors == old(state.errors) + SubmissionErrors(isRfcValid, values)
  {
    var fullname := Trim(values.fullname);
    var phone := Trim(values.phone);
    var email := Trim(values.email);
    var fullnameValid := CheckNameValidity(fullname);
    var emailValid := CheckEmailValidity(isRfcValid, email);
    var phoneValid := CheckPhoneValidity(phone);
    ChecksIgnorePreTrim(isRfcValid, values.fullname);
    ChecksIgnorePreTrim(isRfcValid, values.phone);
    ChecksIgnorePreTrim(isRfcValid, values.email);
    if IsEmpty(fullname) || IsEmpty(phone) || IsEmpty(email) {
      state.SetErrorByName("empty_error", "Empty fields present");
    } else if !fullnameValid || !emailValid || !phoneValid {
      state.SetErrorByName("validity", "Invalid Input Present");
    }
  }

  /** validateForm records at most one error. */
  lemma SubmissionAtMostOneError(isRfcValid: Bytes -> bool, values: FormValues)
    ensures |SubmissionErrors(isRfcValid, values)| <= 1
  {
  }

  /** An empty field gives the empty-field error alone, whatever the checks say. */
  lemma SubmissionEmptyFieldsOnly(isRfcValid: Bytes -> bool, values: FormValues)
    requires AnyFieldEmpty(values)
    ensures SubmissionErrors(isRfcValid, values) == [EmptyFieldsError]
  {
  }

  /** With no field empty, the validity error is recorded exactly when a
      check fails, and no error at all when every check passes. */
  lemma SubmissionValidity(isRfcValid: Bytes -> bool, values: FormValues)
    requires !AnyFieldEmpty(values)
    ensures SubmissionErrors(isRfcValid, values) == [InvalidInputError] <==>
      !StrictName(Trim(values.fullname)) || !TenDigitPhone(Trim(values.phone))
      || !isRfcValid(Trim(values.email)) || !DomainAllowed(Trim(values.email))
    ensures SubmissionErrors(isRfcValid, values) == [] <==>
      StrictName(Trim(values.fullname)) && TenDigitPhone(Trim(values.phone))
      && isRfcValid(Trim(values.email)) && DomainAllowed(Trim(values.email))
  {
  }

  /** A leading zero is refused. */
  lemma PhoneLeadingZeroRefused()
    ensures !CheckPhoneValidity("0123456789")
  {
    TrimOfTrimmed("0123456789");
  }

  /** A ten-digit number starting with 9 passes. */
  lemma PhoneExampleAccepted()
    ensures CheckPhoneValidity("9876543210")
  {
    TrimOfTrimmed("9876543210");
  }

  /** The domain of an address with an "@" is what follows its last "@". */
  lemma DomainOf(local: Bytes, domain: Bytes)
    requires '@' !in domain
    ensures EmailDomain(local + ['@'] + domain) == domain
  {
    ExplodeLastDelimiter('@', local, domain);
  }

  /** The email check on an address that is already trimmed and has the
      given text after its last "@". */
  lemma CheckEmailAt(isRfcValid: Bytes -> bool, local: Bytes, domain: Bytes)
    requires local != [] && !IsTrimByte(local[0])
    requires domain != [] && '@' !in domain && !IsTrimByte(domain[|domain| - 1])
    ensures CheckEmailValidity(isRfcValid, local + ['@'] + domain) <==>
      isRfcValid(local + ['@'] + domain) && domain in AllowedDomains
  {
    var email := local + ['@'] + domain;
    assert email[0] == local[0] && email[|email| - 1] == domain[|domain| - 1];
    TrimOfTrimmed(email);
    DomainOf(local, domain);
  }

  /** An address at a domain outside the allow-list is refused, whatever
      the RFC check says. */
  lemma EmailOtherDomainRefused(isRfcValid: Bytes -> bool, local: Bytes)
    requires local != [] && !IsTrimByte(local[0])
    ensures !CheckEmailValidity(isRfcValid, local + "@hotmail.com")
  {
    CheckEmailAt(isRfcValid, local, "hotmail.com");
    assert local + "@hotmail.com" == local + ['@'] + "hotmail.com";
  }

  /** The allow-list comparison is case-sensitive: no allowed domain holds
      an upper-case letter, so a domain with one is refused even where its
      lower-case spelling is allowed. */
  lemma EmailDomainCaseSensitive(isRfcValid: Bytes -> bool, local: Bytes, domain: Bytes, i: nat)
    requires local != [] && !IsTrimByte(local[0])
    requires domain != [] && '@' !in domain && !IsTrimByte(domain[|domain| - 1])
    requires i < |domain| && 'A' <= domain[i] <= 'Z'
    ensures !CheckEmailValidity(isRfcValid, local + ['@'] + domain)
  {
    CheckEmailAt(isRfcValid, local, domain);
    AllowedDomainsShape();
  }

  /** An address without "@" is its own domain, which is not on the list, so
      it is refused whatever the RFC check says. */
  lemma EmailWithoutAtRefused(isRfcValid: Bytes -> bool, email: Bytes)
    requires '@' !in Trim(email) && Trim(email) !in AllowedDomains
    ensures !CheckEmailValidity(isRfcValid, email)
  {
    ExplodeWithoutDelimiter('@', Trim(email));
  }

  /** "not-an-email" is refused. */
  lemma EmailNotAnAddressRefused(isRfcValid: Bytes -> bool)
    ensures !CheckEmailValidity(isRfcValid, "not-an-email")
  {
    TrimOfTrimmed("not-an-email");
    EmailWithoutAtRefused(isRfcValid, "not-an-email");
  }

  /** An RFC-valid address at an allowed domain passes. */
  lemma EmailAllowedAccepted(isRfcValid: Bytes -> bool, local: Bytes)
    requires local != [] && !IsTrimByte(local[0])
    requires isRfcValid(local + "@gmail.com")
    ensures CheckEmailValidity(isRfcValid, local + "@gmail.com")
  {
    CheckEmailAt(isRfcValid, local, "gmail.com");
    assert local + "@gmail.com" == local + ['@'] + "gmail.com";
  }
}
