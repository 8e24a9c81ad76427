/**
 * liquibase.exception.ValidationErrors, as far as the generators use it: a list
 * that the check methods append to.
 */
module Validation {

  import opened Wrappers

  datatype ValidationError =
    | RequiredField(field: string)      // from checkRequiredField
    | DisallowedField(field: string)    // from checkDisallowedField
    | Message(text: string)             // from addError

  class ValidationErrors {
    var errors: seq<ValidationError>

    constructor ()
      ensures errors == []
    {
      errors := [];
    }

    /** Records that `field` is required when its value is null. */
    method CheckRequiredField<T>(field: string, value: Option<T>)
      modifies this
      ensures errors == old(errors) + (if value.None? then [RequiredField(field)] else [])
    {
      if value.None? {
        errors := errors + [RequiredField(field)];
      }
    }

    /**
     * With no list of disallowed databases every database disallows the field,
     * so a non-null value is an error.
     */
    method CheckDisallowedField<T>(field: string, value: Option<T>)
      modifies this
      ensures errors == old(errors) + (if value.Some? then [DisallowedField(field)] else [])
    {
      if value.Some? {
        errors := errors + [DisallowedField(field)];
      }
    }

    method AddError(message: string)
      modifies this
      ensures errors == old(errors) + [Message(message)]
    {
      errors := errors + [Message(message)];
    }
  }
}
