/**
 The submit handler of the registration page: validate, then either show the errors,
 show a password-mismatch dialog, or send the form to the server.

 The request itself, the dialogs' appearance and the navigation after success are not
 part of this model; the handler is reduced to which of the three things it does.
 */
module Submit {
  import opened Wrappers
  import opened Strings
  import opened Patterns
  import opened Form
  import opened Messages
  import opened Validation
  import opened ErrorHtml
  import Password

  datatype Action =
    | ShowErrors(html: string)   // the error dialog, listing every message
    | ShowMismatch               // the "Passwords do not match!" dialog
    | Post(body: FormData)       // the request that creates the user

  /** What a submit does: the errors it stores in the page state and its action. */
  datatype Submission = Submission(errors: seq<FieldError>, action: Action)

  /** `handleSubmit`. */
  function HandleSubmit(d: FormData): Submission {
    var errs := ValidateForm(d);
    if |errs| > 0 then Submission(errs, ShowErrors(FormatErrorMessages(errs)))
    else if d.password != d.passwordConfirmation then Submission(errs, ShowMismatch)
    else Submission(errs, Post(d))
  }

  /** Every rule of the form, stated over the raw field values. */
  predicate Acceptable(d: FormData) {
    && !AllWs(d.firstName)
    && !AllWs(d.lastName)
    && !AllWs(d.mobilePhone) && PhonePattern(d.mobilePhone)
    && !AllWs(d.email) && EmailPattern(d.email)
    && (forall rule: Password.Rule :: Password.Satisfies(d.password, rule))
    && d.password == d.passwordConfirmation
    && !AllWs(d.address1)
    && !AllWs(d.city)
    && Digits(d.zipCode)
    && d.agree
  }

  /** A list of errors is empty exactly when no field has an entry in it. */
  lemma EmptyIffNoEntry(errs: seq<FieldError>)
    ensures errs == [] <==> forall f: Field :: ErrorFor(errs, f) == None
  {
    if errs != [] {
      assert ErrorFor(errs, errs[0].field).Some?;
    }
  }

  /** `errs` has an entry for a field exactly when the form breaks that field's rule. */
  predicate EntriesFollowRules(errs: seq<FieldError>, d: FormData) {
    RequiredEntriesFollowRules(errs, d) && PatternEntriesFollowRules(errs, d)
    && PasswordEntriesFollowRules(errs, d)
  }

  /** The fields that are only required, and the fields that are never checked. */
  predicate RequiredEntriesFollowRules(errs: seq<FieldError>, d: FormData) {
    && (ErrorFor(errs, FirstName) == None <==> !AllWs(d.firstName))
    && (ErrorFor(errs, LastName) == None <==> !AllWs(d.lastName))
    && (ErrorFor(errs, Address1) == None <==> !AllWs(d.address1))
    && (ErrorFor(errs, City) == None <==> !AllWs(d.city))
    && ErrorFor(errs, Address2) == None
    && ErrorFor(errs, State) == None
    && ErrorFor(errs, Country) == None
  }

  /** Phone, e-mail, zip code and the terms checkbox. */
  predicate PatternEntriesFollowRules(errs: seq<FieldError>, d: FormData) {
    && (ErrorFor(errs, MobilePhone) == None <==> !AllWs(d.mobilePhone) && PhonePattern(d.mobilePhone))
    && (ErrorFor(errs, Email) == None <==> !AllWs(d.email) && EmailPattern(d.email))
    && (ErrorFor(errs, ZipCode) == None <==> Digits(d.zipCode))
    && (ErrorFor(errs, Agree) == None <==> d.agree)
  }

  /** The password rules and the confirmation. */
  predicate PasswordEntriesFollowRules(errs: seq<FieldError>, d: FormData) {
    && (ErrorFor(errs, Password) == None
        <==> forall rule: Password.Rule :: Password.Satisfies(d.password, rule))
    && (ErrorFor(errs, PasswordConfirmation) == None <==> d.password == d.passwordConfirmation)
  }

  /** `errs` has, for every field, the entry that field's own check produces. */
  predicate ReportsOutcomes(errs: seq<FieldError>, d: FormData) {
    forall f: Field :: ErrorFor(errs, f) == Outcome(d, f)
  }

  lemma RequiredEntries(errs: seq<FieldError>, d: FormData)
    requires ReportsOutcomes(errs, d)
    ensures RequiredEntriesFollowRules(errs, d)
  {
    assert ErrorFor(errs, FirstName) == Outcome(d, FirstName);
    assert ErrorFor(errs, LastName) == Outcome(d, LastName);
    assert ErrorFor(errs, Address1) == Outcome(d, Address1);
    assert ErrorFor(errs, City) == Outcome(d, City);
    assert ErrorFor(errs, Address2) == Outcome(d, Address2);
    assert ErrorFor(errs, State) == Outcome(d, State);
    assert ErrorFor(errs, Country) == Outcome(d, Country);
    BlankIffAllWs(d.firstName);
    BlankIffAllWs(d.lastName);
    BlankIffAllWs(d.address1);
    BlankIffAllWs(d.city);
  }

  lemma PatternEntries(errs: seq<FieldError>, d: FormData)
    requires ReportsOutcomes(errs, d)
    ensures PatternEntriesFollowRules(errs, d)
  {
    assert ErrorFor(errs, MobilePhone) == Outcome(d, MobilePhone);
    assert ErrorFor(errs, Email) == Outcome(d, Email);
    assert ErrorFor(errs, ZipCode) == Outcome(d, ZipCode);
    assert ErrorFor(errs, Agree) == Outcome(d, Agree);
    PhoneOutcome(d);
    EmailOutcome(d);
    ZipOutcome(d);
  }

  lemma PasswordEntries(errs: seq<FieldError>, d: FormData)
    requires ReportsOutcomes(errs, d)
    ensures PasswordEntriesFollowRules(errs, d)
  {
    assert ErrorFor(errs, Password) == Outcome(d, Password);
    assert ErrorFor(errs, PasswordConfirmation) == Outcome(d, PasswordConfirmation);
    PasswordOutcome(d);
  }

  /** The validator's list has an entry for a field exactly when the form breaks that
      field's rule, and none for the fields it never checks. */
  lemma ValidateFormFollowsRules(d: FormData)
    ensures EntriesFollowRules(ValidateForm(d), d)
  {
    var errs := ValidateForm(d);
    forall f: Field
      ensures ErrorFor(errs, f) == Outcome(d, f)
    {
      ValidateFormLookup(d, f);
    }
    RequiredEntries(errs, d);
    PatternEntries(errs, d);
    PasswordEntries(errs, d);
  }

  /** A list that follows the rules is empty exactly when every rule holds. */
  lemma EntriesDecideAcceptable(errs: seq<FieldError>, d: FormData)
    requires EntriesFollowRules(errs, d)
    ensures errs == [] <==> Acceptable(d)
  {
    EmptyIffNoEntry(errs);
    if Acceptable(d) {
      forall f: Field
        ensures ErrorFor(errs, f) == None
      {
      }
    }
  }

  /** The validator reports nothing exactly when the form keeps every rule. */
  lemma NoErrorsIffAcceptable(d: FormData)
    ensures ValidateForm(d) == [] <==> Acceptable(d)
  {
    ValidateFormFollowsRules(d);
    EntriesDecideAcceptable(ValidateForm(d), d);
  }

  /** The request is sent exactly when the validator reports nothing, it carries the
      form unchanged, and the stored errors are the validator's. */
  lemma SubmitGate(d: FormData)
    ensures HandleSubmit(d).errors == ValidateForm(d)
    ensures HandleSubmit(d).action.Post? <==> ValidateForm(d) == []
    ensures HandleSubmit(d).action.Post? ==> HandleSubmit(d).action.body == d
  {
    ConfirmationRule(d);
    EmptyIffNoEntry(ValidateForm(d));
  }

  /** The mismatch dialog is never shown: the validator already reports a confirmation
      that differs from the password. */
  lemma MismatchUnreachable(d: FormData)
    ensures !HandleSubmit(d).action.ShowMismatch?
  {
    ConfirmationRule(d);
    EmptyIffNoEntry(ValidateForm(d));
  }

  /** The request is sent exactly when the form keeps every rule. */
  lemma PostIffAcceptable(d: FormData)
    ensures HandleSubmit(d).action.Post? <==> Acceptable(d)
  {
    SubmitGate(d);
    NoErrorsIffAcceptable(d);
  }

  /** The error dialog lists one item per stored error, in check order, and is only
      shown when there is at least one. */
  lemma ErrorDialogListsErrors(d: FormData)
    ensures HandleSubmit(d).action.ShowErrors? ==>
      && |HandleSubmit(d).errors| > 0
      && ParseErrorList(HandleSubmit(d).action.html) == Some(Texts(HandleSubmit(d).errors))
  {
    FormatRoundTrip(ValidateForm(d));
  }
}
