/** How the two employee-settings forms relate: the AJAX form's name rule
    is the stricter one, so a submission it accepts the plain form accepts
    too, but not the other way round. */
module FormAgreement {
  import opened Php
  import opened Patterns
  import opened FormApi
  import Ajax = CustomConfigFormAjax
  import Plain = CustomConfigForm

  /** Values the AJAX form's validateForm accepts make the plain form's
      validateForm record nothing either. */
  lemma StrictAcceptanceImpliesPlain(isRfcValid: Bytes -> bool, values: FormValues)
    requires Ajax.SubmissionErrors(isRfcValid, values) == []
    ensures Plain.Attempts(isRfcValid, values) == []
  {
    Ajax.SubmissionValidity(isRfcValid, values);
    Plain.NoAttemptsIff(isRfcValid, values);
  }

  /** A two-letter name passes both name rules of the plain form, yet the
      AJAX form's name check refuses it for being under five bytes. */
  lemma ShortNameDivergence(isRfcValid: Bytes -> bool, values: FormValues)
    requires Trim(values.fullname) == "Al"
    requires !AnyFieldEmpty(values)
    ensures Plain.NameTooLong !in Plain.Findings(isRfcValid, values)
    ensures Plain.NameInvalid !in Plain.Findings(isRfcValid, values)
    ensures !Ajax.CheckNameValidity(values.fullname)
  {
    Plain.NameLengthRule(isRfcValid, values);
    Plain.NamePatternRule(isRfcValid, values);
    assert IsLenientNameByte("Al"[0]) && IsLenientNameByte("Al"[1]);
  }
}
