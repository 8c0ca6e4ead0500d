/** The slice of Drupal's form API the two forms touch: the submitted
    values, and the form state into which validation records errors. */
module FormApi {
  import opened Php

  /** $form_state->getValue() for the three validated fields. */
  datatype FormValues = FormValues(fullname: Bytes, phone: Bytes, email: Bytes)

  /** One setErrorByName($name, $message) call. */
  datatype FormError = FormError(name: string, message: string)

  /** The error side of FormStateInterface: every setErrorByName call is
      kept, in call order. */
  class FormState {
    var errors: seq<FormError>

    constructor ()
      ensures errors == []
    {
      errors := [];
    }

    method SetErrorByName(name: string, message: string)
      modifies this
      ensures errors == old(errors) + [FormError(name, message)]
    {
      errors := errors + [FormError(name, message)];
    }
  }

  /** The test both forms make first: empty() on any trimmed field. */
  predicate AnyFieldEmpty(values: FormValues) {
    IsEmpty(Trim(values.fullname)) || IsEmpty(Trim(values.phone)) || IsEmpty(Trim(values.email))
  }

  const EmptyFieldsError := FormError("empty_error", "Empty fields present")
}
