/** CustomConfigForm: the plain employee-settings form. Its validateForm
    makes a run of conditional setErrorByName calls in a fixed order: the
    empty-field error alone, or else the name-length, name-pattern, phone
    and email rules, each of which may record its own error. */
module CustomConfigForm {
  import opened Php
  import opened Patterns
  import opened FormApi

  /** One error validateForm can record, named after the rule that fails. */
  datatype Finding = EmptyFields | NameTooLong | NameInvalid | PhoneInvalid | EmailInvalid | DomainNotAllowed
  {
    /** Position of the rule in validateForm. */
    function Rank(): nat {
      match this
      case EmptyFields => 0
      case NameTooLong => 1
      case NameInvalid => 2
      case PhoneInvalid => 3
      case EmailInvalid => 4
      case DomainNotAllowed => 5
    }

    /** The key and message of the setErrorByName call. */
    function Error(): FormError {
      match this
      case EmptyFields => EmptyFieldsError
      case NameTooLong => FormError("name_error", "Maximum 30 characters allowed for name!")
      case NameInvalid => FormError("name_error", "Invalid user name!")
      case PhoneInvalid => FormError("phone_error", "Invalid mobile number!")
      case EmailInvalid => FormError("email_error", "Invalid email address!")
      case DomainNotAllowed => FormError("email_error", "Domain name not allowed")
    }
  }

  /** The rules in the order validateForm tries them. */
  const CheckOrder: seq<Finding> :=
    [EmptyFields, NameTooLong, NameInvalid, PhoneInvalid, EmailInvalid, DomainNotAllowed]

  /** The answers validateForm's tests give on the trimmed values. */
  datatype Tests = Tests(
    anyEmpty: bool,       // empty() on some trimmed field
    nameTooLong: bool,    // strlen($fullname) > 30
    nameMatches: bool,    // preg_match("/^[a-zA-Z-' ]*$/", $fullname)
    phoneMatches: bool,   // preg_match("/^[1-9][0-9]{9}$/", $phone_no)
    rfcValid: bool,       // the RFC syntax check on $email
    domainAllowed: bool)  // in_array($domain, $allowed_domains)

  function RunTests(isRfcValid: Bytes -> bool, values: FormValues): Tests {
    var fullname := Trim(values.fullname);
    var phone := Trim(values.phone);
    var email := Trim(values.email);
    Tests(AnyFieldEmpty(values), |fullname| > 30, PregMatchAnchored(LenientName, fullname),
          PregMatchAnchored(TenDigitPhone, phone), isRfcValid(email), DomainAllowed(email))
  }

  /** Whether the rule behind f records its error, given the test answers. */
  predicate Fires(t: Tests, f: Finding) {
    match f
    case EmptyFields => t.anyEmpty
    case NameTooLong => !t.anyEmpty && t.nameTooLong
    case NameInvalid => !t.anyEmpty && !t.nameMatches
    case PhoneInvalid => !t.anyEmpty && !t.phoneMatches
    case EmailInvalid => !t.anyEmpty && !t.rfcValid
    case DomainNotAllowed => !t.anyEmpty && t.rfcValid && !t.domainAllowed
  }

  predicate RankIncreasing(fs: seq<Finding>) {
    forall i, j | 0 <= i < j < |fs| :: fs[i].Rank() < fs[j].Rank()
  }

  /** The findings of order whose rules fire, kept in order. */
  function Select(t: Tests, order: seq<Finding>): seq<Finding> {
    if order == [] then []
    else (if Fires(t, order[0]) then [order[0]] else []) + Select(t, order[1..])
  }

  /** Select keeps exactly the findings of order whose rules fire. */
  lemma {:induction false} SelectMembers(t: Tests, order: seq<Finding>, f: Finding)
    ensures f in Select(t, order) <==> f in order && Fires(t, f)
  {
    if order != [] {
      SelectMembers(t, order[1..], f);
      assert order == [order[0]] + order[1..];
    }
  }

  /** A finding is recorded exactly when its rule fires. */
  lemma FindingsMembers(isRfcValid: Bytes -> bool, values: FormValues, f: Finding)
    ensures f in Findings(isRfcValid, values) <==> Fires(RunTests(isRfcValid, values), f)
  {
    SelectMembers(RunTests(isRfcValid, values), CheckOrder, f);
    assert f in CheckOrder by {
      match f
      case EmptyFields => assert CheckOrder[0] == f;
      case NameTooLong => assert CheckOrder[1] == f;
      case NameInvalid => assert CheckOrder[2] == f;
      case PhoneInvalid => assert CheckOrder[3] == f;
      case EmailInvalid => assert CheckOrder[4] == f;
      case DomainNotAllowed => assert CheckOrder[5] == f;
    }
  }

  /** Select keeps the order it is given. */
  lemma {:induction false} SelectKeepsOrder(t: Tests, order: seq<Finding>)
    requires RankIncreasing(order)
    ensures RankIncreasing(Select(t, order))
  {
    if order != [] {
      var rest := Select(t, order[1..]);
      assert RankIncreasing(order[1..]) by {
        forall i, j | 0 <= i < j < |order[1..]| ensures order[1..][i].Rank() < order[1..][j].Rank() {
          assert order[1..][i] == order[i + 1] && order[1..][j] == order[j + 1];
        }
      }
      SelectKeepsOrder(t, order[1..]);
      forall f | f in rest ensures order[0].Rank() < f.Rank() {
        SelectMembers(t, order[1..], f);
        var k :| 0 <= k < |order[1..]| && order[1..][k] == f;
        assert order[k + 1] == f;
      }
    }
  }

  /** The rules that record an error, in the order of their calls. */
  function Findings(isRfcValid: Bytes -> bool, values: FormValues): seq<Finding> {
    Select(RunTests(isRfcValid, values), CheckOrder)
  }

  /** One error per finding, in the same order. */
  function ErrorsOf(fs: seq<Finding>): seq<FormError> {
    seq(|fs|, i requires 0 <= i < |fs| => fs[i].Error())
  }

  /** The setErrorByName calls validateForm makes, in order. */
  function Attempts(isRfcValid: Bytes -> bool, values: FormValues): seq<FormError> {
    ErrorsOf(Findings(isRfcValid, values))
  }

  /** Select takes the first rule, if it fires, ahead of the rest. */
  lemma SelectCons(t: Tests, f: Finding, rest: seq<Finding>)
    ensures Select(t, [f] + rest) == (if Fires(t, f) then [f] else []) + Select(t, rest)
  {
    assert ([f] + rest)[1..] == rest;
  }

  /** Select over the fixed rule order, spelled out rule by rule. */
  lemma SelectUnrolled(t: Tests)
    ensures Select(t, CheckOrder) ==
      (if Fires(t, EmptyFields) then [EmptyFields] else [])
      + (if Fires(t, NameTooLong) then [NameTooLong] else [])
      + (if Fires(t, NameInvalid) then [NameInvalid] else [])
      + (if Fires(t, PhoneInvalid) then [PhoneInvalid] else [])
      + (if Fires(t, EmailInvalid) then [EmailInvalid] else [])
      + (if Fires(t, DomainNotAllowed) then [DomainNotAllowed] else [])
  {
    var o5: seq<Finding> := [DomainNotAllowed];
    var o4: seq<Finding> := [EmailInvalid] + o5;
    var o3: seq<Finding> := [PhoneInvalid] + o4;
    var o2: seq<Finding> := [NameInvalid] + o3;
    var o1: seq<Finding> := [NameTooLong] + o2;
    var o0: seq<Finding> := [EmptyFields] + o1;
    assert o0 == CheckOrder;
    SelectCons(t, DomainNotAllowed, []);
    assert o5 == [DomainNotAllowed] + [];
    SelectCons(t, EmailInvalid, o5);
    SelectCons(t, PhoneInvalid, o4);
    SelectCons(t, NameInvalid, o3);
    SelectCons(t, NameTooLong, o2);
    SelectCons(t, EmptyFields, o1);
  }

  /** The error the rule behind f records, if it fires. */
  function Emit(t: Tests, f: Finding): seq<FormError> {
    if Fires(t, f) then [f.Error()] else []
  }

  /** The error list of a concatenation is the concatenation of the lists. */
  lemma ErrorsOfAppend(a: seq<Finding>, b: seq<Finding>)
    ensures ErrorsOf(a + b) == ErrorsOf(a) + ErrorsOf(b)
  {
    forall i | 0 <= i < |a + b| ensures ErrorsOf(a + b)[i] == (ErrorsOf(a) + ErrorsOf(b))[i] {
      if i < |a| { assert (a + b)[i] == a[i]; } else { assert (a + b)[i] == b[i - |a|]; }
    }
  }

  /** The attempts for given test answers, spelled out rule by rule. */
  lemma ErrorsUnrolled(t: Tests)
    ensures ErrorsOf(Select(t, CheckOrder)) ==
      Emit(t, EmptyFields) + Emit(t, NameTooLong) + Emit(t, NameInvalid)
      + Emit(t, PhoneInvalid) + Emit(t, EmailInvalid) + Emit(t, DomainNotAllowed)
  {
    SelectUnrolled(t);
    var p0: seq<Finding> := if Fires(t, EmptyFields) then [EmptyFields] else [];
    var p1: seq<Finding> := if Fires(t, NameTooLong) then [NameTooLong] else [];
    var p2: seq<Finding> := if Fires(t, NameInvalid) then [NameInvalid] else [];
    var p3: seq<Finding> := if Fires(t, PhoneInvalid) then [PhoneInvalid] else [];
    var p4: seq<Finding> := if Fires(t, EmailInvalid) then [EmailInvalid] else [];
    var p5: seq<Finding> := if Fires(t, DomainNotAllowed) then [DomainNotAllowed] else [];
    ErrorsOfAppend(p0 + p1 + p2 + p3 + p4, p5);
    ErrorsOfAppend(p0 + p1 + p2 + p3, p4);
    ErrorsOfAppend(p0 + p1 + p2, p3);
    ErrorsOfAppend(p0 + p1, p2);
    ErrorsOfAppend(p0, p1);
    assert ErrorsOf(p0) == Emit(t, EmptyFields);
    assert ErrorsOf(p1) == Emit(t, NameTooLong);
    assert ErrorsOf(p2) == Emit(t, NameInvalid);
    assert ErrorsOf(p3) == Emit(t, PhoneInvalid);
    assert ErrorsOf(p4) == Emit(t, EmailInvalid);
    assert ErrorsOf(p5) == Emit(t, DomainNotAllowed);
  }

  /** With a field empty, the one attempt is the empty-field error. */
  lemma ErrorsWhenEmpty(t: Tests)
    requires t.anyEmpty
    ensures ErrorsOf(Select(t, CheckOrder)) == [EmptyFieldsError]
  {
    ErrorsUnrolled(t);
  }

  /** With no field empty, the attempts are the name and phone rules'
      errors followed by the email rules' errors. */
  lemma ErrorsWhenFilled(t: Tests)
    requires !t.anyEmpty
    ensures ErrorsOf(Select(t, CheckOrder)) ==
      NamePhoneErrors(t.nameTooLong, t.nameMatches, t.phoneMatches)
      + EmailErrors(t.rfcValid, t.domainAllowed)
  {
    ErrorsUnrolled(t);
    var named := Emit(t, NameTooLong) + Emit(t, NameInvalid) + Emit(t, PhoneInvalid);
    assert Emit(t, EmptyFields) + Emit(t, NameTooLong) == Emit(t, NameTooLong);
    assert (named + Emit(t, EmailInvalid)) + Emit(t, DomainNotAllowed)
      == named + (Emit(t, EmailInvalid) + Emit(t, DomainNotAllowed));
    assert NamePhoneErrors(t.nameTooLong, t.nameMatches, t.phoneMatches) == named;
    assert EmailErrors(t.rfcValid, t.domainAllowed) == Emit(t, EmailInvalid) + Emit(t, DomainNotAllowed);
  }

  /** The errors the email branch of validateForm records, given the
      answers of the RFC check and of the domain test. */
  function EmailErrors(rfcValid: bool, domainAllowed: bool): seq<FormError> {
    if !rfcValid then [EmailInvalid.Error()]
    else if !domainAllowed then [DomainNotAllowed.Error()]
    else []
  }

  /** The email branch of validateForm: the RFC check, and only when it
      passes, the domain test. */
  method AttemptEmail(state: FormState, email: Bytes, isRfcValid: Bytes -> bool)
    modifies state
    ensures state.errors == old(state.errors) + EmailErrors(isRfcValid(email), DomainAllowed(email))
  {
    if !isRfcValid(email) {
      state.SetErrorByName("email_error", "Invalid email address!");
    } else {
      var parts := Explode('@', email);
      var domain := parts[|parts| - 1];
      if domain !in AllowedDomains {
        state.SetErrorByName("email_error", "Domain name not allowed");
      }
    }
  }

  /** The errors the name and phone branches of validateForm record, given
      the answers of the length test and of the two pattern matches. */
  function NamePhoneErrors(nameTooLong: bool, nameMatches: bool, phoneMatches: bool): seq<FormError> {
    (if nameTooLong then [NameTooLong.Error()] else [])
    + (if !nameMatches then [NameInvalid.Error()] else [])
    + (if !phoneMatches then [PhoneInvalid.Error()] else [])
  }

  /** The name and phone branches of validateForm: the length rule, the
      pattern rule, then the phone rule, each recording its own error. */
  method AttemptNamePhone(state: FormState, fullname: Bytes, phone: Bytes)
    modifies state
    ensures state.errors == old(state.errors) + NamePhoneErrors(
      |fullname| > 30, PregMatchAnchored(LenientName, fullname), PregMatchAnchored(TenDigitPhone, phone))
  {
    if |fullname| > 30 {
      state.SetErrorByName("name_error", "Maximum 30 characters allowed for name!");
    }
    if !PregMatchAnchored(LenientName, fullname) {
      state.SetErrorByName("name_error", "Invalid user name!");
    }
    if !PregMatchAnchored(TenDigitPhone, phone) {
      state.SetErrorByName("phone_error", "Invalid mobile number!");
    }
  }

  /** validateForm. */
  method ValidateForm(state: FormState, values: FormValues, isRfcValid: Bytes -> bool)
    modifies state
    ensures state.errors == old(state.errors) + Attempts(isRfcValid, values)
  {
    var fullname := Trim(values.fullname);
    var phone := Trim(values.phone);
    var email := Trim(values.email);
    if IsEmpty(fullname) || IsEmpty(phone) || IsEmpty(email) {
      state.SetErrorByName("empty_error", "Empty fields present");
      EmptyFieldsOnly(isRfcValid, values);
    } else {
      AttemptNamePhone(state, fullname, phone);
      AttemptEmail(state, email, isRfcValid);
      AttemptsWhenFilled(isRfcValid, values);
    }
  }

  /** With no field empty, the attempts are those of the name and phone
      branches followed by those of the email branch. */
  lemma AttemptsWhenFilled(isRfcValid: Bytes -> bool, values: FormValues)
    requires !AnyFieldEmpty(values)
    ensures var fullname, phone, email := Trim(values.fullname), Trim(values.phone), Trim(values.email);
      Attempts(isRfcValid, values) ==
        NamePhoneErrors(|fullname| > 30, PregMatchAnchored(LenientName, fullname),
                        PregMatchAnchored(TenDigitPhone, phone))
        + EmailErrors(isRfcValid(email), DomainAllowed(email))
  {
    ErrorsWhenFilled(RunTests(isRfcValid, values));
  }

  /** An empty field records the empty-field error and nothing else: no
      name, phone or email rule is tried. */
  lemma EmptyFieldsOnly(isRfcValid: Bytes -> bool, values: FormValues)
    requires AnyFieldEmpty(values)
    ensures Attempts(isRfcValid, values) == [EmptyFieldsError]
  {
    SelectUnrolled(RunTests(isRfcValid, values));
  }

  /** The length rule fires exactly on names of more than 30 bytes. */
  lemma NameLengthRule(isRfcValid: Bytes -> bool, values: FormValues)
    requires !AnyFieldEmpty(values)
    ensures NameTooLong in Findings(isRfcValid, values) <==> |Trim(values.fullname)| > 30
  {
    FindingsMembers(isRfcValid, values, NameTooLong);
  }

  /** The pattern rule fires exactly when the name holds a byte other than a
      letter, hyphen, apostrophe or space; it has no length bound. */
  lemma NamePatternRule(isRfcValid: Bytes -> bool, values: FormValues)
    requires !AnyFieldEmpty(values)
    ensures var t := Trim(values.fullname);
      NameInvalid in Findings(isRfcValid, values) <==>
        exists i | 0 <= i < |t| :: !IsLenientNameByte(t[i])
  {
    FindingsMembers(isRfcValid, values, NameInvalid);
    AnchoredOnTrimmed(LenientName, Trim(values.fullname));
  }

  /** The length and pattern rules are independent: an overlong name with
      a refused byte gets both name errors, under the same key, as the
      first two attempts. */
  lemma BothNameErrors(isRfcValid: Bytes -> bool, values: FormValues)
    requires !AnyFieldEmpty(values)
    requires |Trim(values.fullname)| > 30 && !LenientName(Trim(values.fullname))
    ensures |Attempts(isRfcValid, values)| >= 2
    ensures Attempts(isRfcValid, values)[..2] ==
      [FormError("name_error", "Maximum 30 characters allowed for name!"),
       FormError("name_error", "Invalid user name!")]
  {
    AttemptsWhenFilled(isRfcValid, values);
    AnchoredOnTrimmed(LenientName, Trim(values.fullname));
  }

  /** The phone rule fires exactly when the number is not ten digits with
      a first digit from 1 to 9. */
  lemma PhoneRule(isRfcValid: Bytes -> bool, values: FormValues)
    requires !AnyFieldEmpty(values)
    ensures var t := Trim(values.phone);
      PhoneInvalid in Findings(isRfcValid, values) <==>
        !(|t| == 10 && '1' <= t[0] <= '9' && AllDigits(t))
  {
    var t := Trim(values.phone);
    FindingsMembers(isRfcValid, values, PhoneInvalid);
    assert RunTests(isRfcValid, values).phoneMatches == TenDigitPhone(t) by {
      AnchoredOnTrimmed(TenDigitPhone, t);
    }
    TenDigitPhoneIff(t);
  }

  /** An RFC failure records "Invalid email address!" and skips the domain
      test; an RFC-valid address outside the allow-list records "Domain name
      not allowed"; so at most one email error is recorded. */
  lemma EmailRule(isRfcValid: Bytes -> bool, values: FormValues)
    requires !AnyFieldEmpty(values)
    ensures var t := Trim(values.email); var fs := Findings(isRfcValid, values);
      && (EmailInvalid in fs <==> !isRfcValid(t))
      && (DomainNotAllowed in fs <==> isRfcValid(t) && EmailDomain(t) !in AllowedDomains)
      && !(EmailInvalid in fs && DomainNotAllowed in fs)
  {
    FindingsMembers(isRfcValid, values, EmailInvalid);
    FindingsMembers(isRfcValid, values, DomainNotAllowed);
  }

  /** The errors come in the rule order (empty fields, name length, name
      pattern, phone, email), each at most once. */
  lemma AttemptsInRuleOrder(isRfcValid: Bytes -> bool, values: FormValues)
    ensures var fs := Findings(isRfcValid, values);
      |Attempts(isRfcValid, values)| == |fs| && RankIncreasing(fs)
      && forall i | 0 <= i < |fs| :: Attempts(isRfcValid, values)[i] == fs[i].Error()
  {
    assert RankIncreasing(CheckOrder) by {
      assert forall i | 0 <= i < |CheckOrder| :: CheckOrder[i].Rank() == i;
    }
    SelectKeepsOrder(RunTests(isRfcValid, values), CheckOrder);
  }

  /** No error is recorded exactly when no field is empty and every rule
      passes. */
  lemma NoAttemptsIff(isRfcValid: Bytes -> bool, values: FormValues)
    ensures var fullname, phone, email := Trim(values.fullname), Trim(values.phone), Trim(values.email);
      Attempts(isRfcValid, values) == [] <==>
        && !AnyFieldEmpty(values)
        && |fullname| <= 30 && LenientName(fullname)
        && TenDigitPhone(phone)
        && isRfcValid(email) && DomainAllowed(email)
  {
    if AnyFieldEmpty(values) {
      EmptyFieldsOnly(isRfcValid, values);
    } else {
      AttemptsWhenFilled(isRfcValid, values);
      AnchoredOnTrimmed(LenientName, Trim(values.fullname));
      AnchoredOnTrimmed(TenDigitPhone, Trim(values.phone));
    }
  }
}
