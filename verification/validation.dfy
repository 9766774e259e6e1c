/**
 `validateForm`: the record of field errors computed from the form.

 The errors form an ordered list of (field, message) pairs. JavaScript enumerates the
 string keys of an object in the order they were first assigned, and every key here is
 assigned at most once, in the order the checks run, so the list order is the order of
 `CheckOrder`.
 */
module Validation {
  import opened Wrappers
  import Chars
  import opened Strings
  import opened Patterns
  import opened Form
  import opened Messages
  import Password

  datatype FieldError = FieldError(field: Field, message: Message)

  /** The fields that are checked, in the order the checks run. */
  const CheckOrder: seq<Field> :=
    [FirstName, LastName, MobilePhone, Email, Password, PasswordConfirmation,
     Address1, City, ZipCode, Agree]

  /** Every field: the checked ones in check order, then the three that are never checked. */
  const FieldOrder: seq<Field> := CheckOrder + [Address2, State, Country]

  /** The index of the first `f` in `fs`, or `|fs|` when `f` is absent. */
  function Position(fs: seq<Field>, f: Field): (r: nat)
    ensures r <= |fs|
    ensures r < |fs| ==> fs[r] == f
    ensures f !in fs[..r]
  {
    if fs == [] then 0
    else if fs[0] == f then 0
    else
      var r := Position(fs[1..], f);
      assert fs[..r + 1] == [fs[0]] + fs[1..][..r];
      r + 1
  }

  /** A field's position in `FieldOrder`; the unchecked fields come after all checked ones. */
  function Rank(f: Field): nat {
    Position(FieldOrder, f)
  }

  /** In a list without repeats, an element's first position is its position. */
  lemma PositionOfDistinct(fs: seq<Field>, i: nat)
    requires forall a, b :: 0 <= a < b < |fs| ==> fs[a] != fs[b]
    requires i < |fs|
    ensures Position(fs, fs[i]) == i
  {
  }

  /** The rank of a checked field is its index in `CheckOrder`. */
  lemma RankIsCheckIndex()
    ensures forall i :: 0 <= i < |CheckOrder| ==> Rank(CheckOrder[i]) == i
  {
    forall i | 0 <= i < |CheckOrder|
      ensures Rank(CheckOrder[i]) == i
    {
      assert CheckOrder[i] == FieldOrder[i];
      PositionOfDistinct(FieldOrder, i);
    }
  }

  /** "X is required" when the trimmed value is empty. */
  function CheckRequired(v: string, required: Message): Option<Message> {
    if IsBlank(v) then Some(required) else None
  }

  /** Required, then matched against a pattern on the untrimmed value. */
  function CheckRequiredPattern(v: string, required: Message, matches: bool, invalid: Message): Option<Message> {
    if IsBlank(v) then Some(required)
    else if !matches then Some(invalid)
    else None
  }

  /** The message the check for field `f` yields on form `d`, if any. */
  function Outcome(d: FormData, f: Field): Option<Message> {
    match f
    case FirstName => CheckRequired(d.firstName, FirstNameRequired)
    case LastName => CheckRequired(d.lastName, LastNameRequired)
    case MobilePhone =>
      CheckRequiredPattern(d.mobilePhone, PhoneRequired, IsPhoneNumber(d.mobilePhone), PhoneInvalid)
    case Email =>
      CheckRequiredPattern(d.email, EmailRequired, IsValidEmail(d.email), EmailInvalid)
    case Password => Password.CheckPassword(d.password)
    case PasswordConfirmation =>
      if d.password != d.passwordConfirmation then Some(PasswordsDiffer) else None
    case Address1 => CheckRequired(d.address1, Address1Required)
    case City => CheckRequired(d.city, CityRequired)
    case ZipCode => CheckRequiredPattern(d.zipCode, ZipRequired, IsZipCode(d.zipCode), ZipInvalid)
    case Agree => if !d.agree then Some(AgreeRequired) else None
    case Address2 | State | Country => None
  }

  /** The fields of a list of errors, in list order, have strictly increasing rank. */
  predicate InCheckOrder(errs: seq<FieldError>) {
    forall i, j :: 0 <= i < j < |errs| ==> Rank(errs[i].field) < Rank(errs[j].field)
  }

  /** Strictly increasing rank along a list of fields. */
  predicate Ascending(fs: seq<Field>) {
    forall i, j :: 0 <= i < j < |fs| ==> Rank(fs[i]) < Rank(fs[j])
  }

  /** Runs the checks `outcome` of the fields `fs` in order, keeping one entry per
      failing check. */
  function Collect(outcome: Field -> Option<Message>, fs: seq<Field>): (errs: seq<FieldError>)
    ensures |errs| <= |fs|
    ensures forall e :: e in errs ==> e.field in fs && outcome(e.field) == Some(e.message)
  {
    if fs == [] then []
    else
      var rest := Collect(outcome, fs[1..]);
      match outcome(fs[0])
      case None => rest
      case Some(m) => [FieldError(fs[0], m)] + rest
  }

  /** The tail of an ascending list is ascending and lies wholly above its head. */
  lemma AscendingTail(fs: seq<Field>)
    requires Ascending(fs) && fs != []
    ensures Ascending(fs[1..])
    ensures forall f :: f in fs[1..] ==> Rank(fs[0]) < Rank(f)
  {
    forall i, j | 0 <= i < j < |fs[1..]|
      ensures Rank(fs[1..][i]) < Rank(fs[1..][j])
    {
      assert fs[1..][i] == fs[i + 1] && fs[1..][j] == fs[j + 1];
    }
    forall f | f in fs[1..]
      ensures Rank(fs[0]) < Rank(f)
    {
      var k :| 0 <= k < |fs[1..]| && fs[1..][k] == f;
      assert fs[k + 1] == f;
    }
  }

  /** An error in front of errors of higher rank keeps the list in check order. */
  lemma ConsInCheckOrder(head: FieldError, rest: seq<FieldError>)
    requires InCheckOrder(rest)
    requires forall e :: e in rest ==> Rank(head.field) < Rank(e.field)
    ensures InCheckOrder([head] + rest)
  {
    var errs := [head] + rest;
    forall i, j | 0 <= i < j < |errs|
      ensures Rank(errs[i].field) < Rank(errs[j].field)
    {
      assert errs[j] == rest[j - 1] && errs[j] in rest;
      if i > 0 {
        assert errs[i] == rest[i - 1];
      }
    }
  }

  /** Collecting along ascending fields yields errors in check order. */
  lemma {:induction false} CollectInCheckOrder(outcome: Field -> Option<Message>, fs: seq<Field>)
    requires Ascending(fs)
    ensures InCheckOrder(Collect(outcome, fs))
  {
    if fs != [] {
      AscendingTail(fs);
      CollectInCheckOrder(outcome, fs[1..]);
      var rest := Collect(outcome, fs[1..]);
      if outcome(fs[0]).Some? {
        ConsInCheckOrder(FieldError(fs[0], outcome(fs[0]).value), rest);
      }
    }
  }

  /** `validateForm(data)`. */
  function ValidateForm(d: FormData): (errs: seq<FieldError>)
    ensures InCheckOrder(errs)
    ensures |errs| <= |CheckOrder|
    ensures forall e :: e in errs ==> e.field in CheckOrder && Outcome(d, e.field) == Some(e.message)
  {
    RankIsCheckIndex();
    CollectInCheckOrder(f => Outcome(d, f), CheckOrder);
    Collect(f => Outcome(d, f), CheckOrder)
  }

  /** `errors[f]`: the message stored under `f`, if any. */
  function ErrorFor(errs: seq<FieldError>, f: Field): Option<Message> {
    if errs == [] then None
    else if errs[0].field == f then Some(errs[0].message)
    else ErrorFor(errs[1..], f)
  }

  /** Looking a field up in the collected errors finds the outcome of its check when it
      was checked, and nothing otherwise. */
  lemma {:induction false} CollectLookup(outcome: Field -> Option<Message>, fs: seq<Field>, f: Field)
    requires Ascending(fs)
    ensures ErrorFor(Collect(outcome, fs), f) == if f in fs then outcome(f) else None
  {
    if fs != [] {
      var rest := Collect(outcome, fs[1..]);
      AscendingTail(fs);
      CollectLookup(outcome, fs[1..], f);
      assert f in fs <==> f == fs[0] || f in fs[1..] by {
        assert fs == [fs[0]] + fs[1..];
      }
      match outcome(fs[0])
      case None =>
      case Some(m) =>
        assert Collect(outcome, fs) == [FieldError(fs[0], m)] + rest;
        assert ([FieldError(fs[0], m)] + rest)[1..] == rest;
    }
  }

  /** `errors[f]` after `validateForm` is the outcome of `f`'s check; the fields that are
      never checked (address line 2, state, country) never carry an error. */
  lemma ValidateFormLookup(d: FormData, f: Field)
    ensures ErrorFor(ValidateForm(d), f) == Outcome(d, f)
    ensures f in {Address2, State, Country} ==> ErrorFor(ValidateForm(d), f) == None
  {
    RankIsCheckIndex();
    CollectLookup(g => Outcome(d, g), CheckOrder, f);
    assert f !in {Address2, State, Country} ==> f in CheckOrder;
  }

  /** Each field carries at most one error. */
  lemma OneErrorPerField(d: FormData)
    ensures forall i, j :: 0 <= i < j < |ValidateForm(d)| ==> ValidateForm(d)[i].field != ValidateForm(d)[j].field
  {
  }

  /** The message of a field that is only required. */
  function RequiredMessage(f: Field): Message
    requires f in {FirstName, LastName, Address1, City}
  {
    match f
    case FirstName => FirstNameRequired
    case LastName => LastNameRequired
    case Address1 => Address1Required
    case City => CityRequired
  }

  /** First name, last name, address line 1 and city carry their "is required" message
      exactly when they are empty or whitespace only, and no message otherwise. */
  lemma RequiredFieldRule(d: FormData, f: TextField)
    requires f in {FirstName, LastName, Address1, City}
    ensures ErrorFor(ValidateForm(d), f) == if AllWs(Get(d, f)) then Some(RequiredMessage(f)) else None
  {
    ValidateFormLookup(d, f);
    BlankIffAllWs(Get(d, f));
  }

  /** The phone number: required when blank, otherwise the untrimmed value must be an
      optional `+` followed by one or more ASCII digits. */
  lemma PhoneRule(d: FormData)
    ensures ErrorFor(ValidateForm(d), MobilePhone) == Some(PhoneRequired) <==> AllWs(d.mobilePhone)
    ensures ErrorFor(ValidateForm(d), MobilePhone) == Some(PhoneInvalid)
            <==> !AllWs(d.mobilePhone) && !PhonePattern(d.mobilePhone)
    ensures ErrorFor(ValidateForm(d), MobilePhone) == None
            <==> !AllWs(d.mobilePhone) && PhonePattern(d.mobilePhone)
  {
    PhoneOutcome(d);
    ValidateFormLookup(d, MobilePhone);
  }

  lemma PhoneOutcome(d: FormData)
    ensures Outcome(d, MobilePhone) == Some(PhoneRequired) <==> AllWs(d.mobilePhone)
    ensures Outcome(d, MobilePhone) == Some(PhoneInvalid)
            <==> !AllWs(d.mobilePhone) && !PhonePattern(d.mobilePhone)
    ensures Outcome(d, MobilePhone) == None
            <==> !AllWs(d.mobilePhone) && PhonePattern(d.mobilePhone)
  {
    BlankIffAllWs(d.mobilePhone);
    PhoneMatchesPattern(d.mobilePhone);
  }

  /** The e-mail address: required when blank, otherwise the untrimmed value must match
      `local@host.tail` with no whitespace and no second `@`. */
  lemma EmailRule(d: FormData)
    ensures ErrorFor(ValidateForm(d), Email) == Some(EmailRequired) <==> AllWs(d.email)
    ensures ErrorFor(ValidateForm(d), Email) == Some(EmailInvalid)
            <==> !AllWs(d.email) && !EmailPattern(d.email)
    ensures ErrorFor(ValidateForm(d), Email) == None
            <==> !AllWs(d.email) && EmailPattern(d.email)
  {
    EmailOutcome(d);
    ValidateFormLookup(d, Email);
  }

  lemma EmailOutcome(d: FormData)
    ensures Outcome(d, Email) == Some(EmailRequired) <==> AllWs(d.email)
    ensures Outcome(d, Email) == Some(EmailInvalid) <==> !AllWs(d.email) && !EmailPattern(d.email)
    ensures Outcome(d, Email) == None <==> !AllWs(d.email) && EmailPattern(d.email)
  {
    BlankIffAllWs(d.email);
    EmailMatchesPattern(d.email);
  }

  /** The password carries no message exactly when it keeps all six rules, and otherwise
      the message of the first rule it breaks. */
  lemma PasswordRule(d: FormData)
    ensures ErrorFor(ValidateForm(d), Password) == None
            <==> forall rule: Password.Rule :: Password.Satisfies(d.password, rule)
    ensures forall rule: Password.Rule :: Password.FirstBrokenRule(d.password, rule)
              ==> ErrorFor(ValidateForm(d), Password) == Some(Password.Message(rule))
  {
    PasswordOutcome(d);
    ValidateFormLookup(d, Password);
  }

  lemma PasswordOutcome(d: FormData)
    ensures Outcome(d, Password) == None
            <==> forall rule: Password.Rule :: Password.Satisfies(d.password, rule)
    ensures forall rule: Password.Rule :: Password.FirstBrokenRule(d.password, rule)
              ==> Outcome(d, Password) == Some(Password.Message(rule))
  {
    assert Outcome(d, Password) == Password.CheckPassword(d.password);
    Password.CheckPasswordReportsFirstFailure(d.password);
  }

  /** The confirmation carries its message exactly when it differs from the password,
      whatever the password's own check says. */
  lemma ConfirmationRule(d: FormData)
    ensures ErrorFor(ValidateForm(d), PasswordConfirmation).Some? <==> d.password != d.passwordConfirmation
    ensures ErrorFor(ValidateForm(d), PasswordConfirmation).Some?
            ==> ErrorFor(ValidateForm(d), PasswordConfirmation) == Some(PasswordsDiffer)
  {
    var o := Outcome(d, PasswordConfirmation);
    assert o.Some? <==> d.password != d.passwordConfirmation;
    assert o.Some? ==> o == Some(PasswordsDiffer);
    ValidateFormLookup(d, PasswordConfirmation);
  }

  /** The zip code: required when blank, otherwise the untrimmed value must be one or
      more ASCII digits. */
  lemma ZipRule(d: FormData)
    ensures ErrorFor(ValidateForm(d), ZipCode) == Some(ZipRequired) <==> AllWs(d.zipCode)
    ensures ErrorFor(ValidateForm(d), ZipCode) == Some(ZipInvalid)
            <==> !AllWs(d.zipCode) && !Digits(d.zipCode)
    ensures ErrorFor(ValidateForm(d), ZipCode) == None <==> Digits(d.zipCode)
  {
    ZipOutcome(d);
    ValidateFormLookup(d, ZipCode);
  }

  lemma ZipOutcome(d: FormData)
    ensures Outcome(d, ZipCode) == Some(ZipRequired) <==> AllWs(d.zipCode)
    ensures Outcome(d, ZipCode) == Some(ZipInvalid) <==> !AllWs(d.zipCode) && !Digits(d.zipCode)
    ensures Outcome(d, ZipCode) == None <==> Digits(d.zipCode)
  {
    BlankIffAllWs(d.zipCode);
    var o := Outcome(d, ZipCode);
    if AllWs(d.zipCode) {
      assert o == Some(ZipRequired);
      if d.zipCode != [] {
        assert Chars.IsWs(d.zipCode[0]);
      }
    } else if !Digits(d.zipCode) {
      assert o == Some(ZipInvalid);
    } else {
      assert o == None;
    }
  }

  /** An unticked box yields the terms-and-conditions message. */
  lemma AgreeRule(d: FormData)
    ensures ErrorFor(ValidateForm(d), Agree) == if d.agree then None else Some(AgreeRequired)
  {
    ValidateFormLookup(d, Agree);
  }

  /** Typing into input `f` can change only the error of `f`, plus the confirmation's
      error when `f` is the password; every other entry stays as it was. */
  lemma InputChangeIsLocal(d: FormData, f: TextField, v: string, g: Field)
    requires g != f
    requires !(f == Password && g == PasswordConfirmation)
    ensures ErrorFor(ValidateForm(HandleInputChange(d, f, v)), g) == ErrorFor(ValidateForm(d), g)
  {
    var d' := HandleInputChange(d, f, v);
    assert Outcome(d', g) == Outcome(d, g) by {
      if g != Agree {
        assert Get(d', g) == Get(d, g);
      }
      if g == PasswordConfirmation {
        assert Get(d', Password) == Get(d, Password);
      }
    }
    ValidateFormLookup(d', g);
    ValidateFormLookup(d, g);
  }

  /** Ticking or unticking the box can change only the terms-and-conditions error. */
  lemma CheckboxChangeIsLocal(d: FormData, checked: bool, g: Field)
    requires g != Agree
    ensures ErrorFor(ValidateForm(HandleCheckboxChange(d, checked)), g) == ErrorFor(ValidateForm(d), g)
  {
    var d' := HandleCheckboxChange(d, checked);
    assert Outcome(d', g) == Outcome(d, g) by {
      assert Get(d', g) == Get(d, g);
    }
    ValidateFormLookup(d', g);
    ValidateFormLookup(d, g);
  }

  /** Submitting the untouched form reports every checked field except the
      confirmation, which matches the (equally empty) password. */
  lemma InitialFormErrors(f: Field)
    ensures ErrorFor(ValidateForm(Initial), f).Some? <==> f in CheckOrder && f != PasswordConfirmation
  {
    assert Outcome(Initial, f).Some? <==> f in CheckOrder && f != PasswordConfirmation by {
      assert AllWs("");
      BlankIffAllWs("");
    }
    ValidateFormLookup(Initial, f);
  }

  /** A phone number with a leading blank passes the "required" test, which trims,
      but fails the format test, which does not. */
  lemma PaddedPhoneIsInvalid(d: FormData)
    requires d.mobilePhone == " 123"
    ensures ErrorFor(ValidateForm(d), MobilePhone) == Some(PhoneInvalid)
  {
    assert Outcome(d, MobilePhone) == Some(PhoneInvalid) by {
      assert !Chars.IsWs(d.mobilePhone[1]);
      assert !AllWs(d.mobilePhone);
      BlankIffAllWs(d.mobilePhone);
      assert !Chars.IsDigit(d.mobilePhone[0]);
    }
    ValidateFormLookup(d, MobilePhone);
  }
}
