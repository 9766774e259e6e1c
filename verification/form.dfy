/**
 The registration form's state: twelve text inputs and the terms-and-conditions
 checkbox, together with the two change handlers that update it.
 */
module Form {

  /** The keys of the form record. The first twelve are text inputs; `Agree` is the
      checkbox. The same names key the error record. */
  datatype Field =
    | FirstName | LastName | Email | MobilePhone | Password | PasswordConfirmation
    | Address1 | Address2 | City | ZipCode | State | Country
    | Agree

  /** The fields bound to a text input; each input's `name` attribute is one of these. */
  type TextField = f: Field | f != Agree witness FirstName

  datatype FormData = FormData(
    firstName: string,
    lastName: string,
    email: string,
    mobilePhone: string,
    password: string,
    passwordConfirmation: string,
    address1: string,
    address2: string,
    city: string,
    zipCode: string,
    state: string,
    country: string,
    agree: bool)

  /** The state the page starts in: every input empty and the box unticked. */
  const Initial: FormData :=
    FormData("", "", "", "", "", "", "", "", "", "", "", "", false)

  /** `formData[name]` for a text input. */
  function Get(d: FormData, f: TextField): string {
    match f
    case FirstName => d.firstName
    case LastName => d.lastName
    case Email => d.email
    case MobilePhone => d.mobilePhone
    case Password => d.password
    case PasswordConfirmation => d.passwordConfirmation
    case Address1 => d.address1
    case Address2 => d.address2
    case City => d.city
    case ZipCode => d.zipCode
    case State => d.state
    case Country => d.country
  }

  /** `handleInputChange`: a copy of the record with the input named `f` set to `v`. */
  function HandleInputChange(d: FormData, f: TextField, v: string): (r: FormData)
    ensures Get(r, f) == v
    ensures forall g: TextField :: g != f ==> Get(r, g) == Get(d, g)
    ensures r.agree == d.agree
  {
    match f
    case FirstName => d.(firstName := v)
    case LastName => d.(lastName := v)
    case Email => d.(email := v)
    case MobilePhone => d.(mobilePhone := v)
    case Password => d.(password := v)
    case PasswordConfirmation => d.(passwordConfirmation := v)
    case Address1 => d.(address1 := v)
    case Address2 => d.(address2 := v)
    case City => d.(city := v)
    case ZipCode => d.(zipCode := v)
    case State => d.(state := v)
    case Country => d.(country := v)
  }

  /** `handleCheckboxChange`: a copy of the record with the box set to `checked`. */
  function HandleCheckboxChange(d: FormData, checked: bool): (r: FormData)
    ensures r.agree == checked
    ensures forall g: TextField :: Get(r, g) == Get(d, g)
  {
    d.(agree := checked)
  }

  /** Two records that agree on every input and on the box are the same record. */
  lemma Extensionality(d: FormData, e: FormData)
    requires forall g: TextField :: Get(d, g) == Get(e, g)
    requires d.agree == e.agree
    ensures d == e
  {
    assert Get(d, FirstName) == Get(e, FirstName);
    assert Get(d, LastName) == Get(e, LastName);
    assert Get(d, Email) == Get(e, Email);
    assert Get(d, MobilePhone) == Get(e, MobilePhone);
    assert Get(d, Password) == Get(e, Password);
    assert Get(d, PasswordConfirmation) == Get(e, PasswordConfirmation);
    assert Get(d, Address1) == Get(e, Address1);
    assert Get(d, Address2) == Get(e, Address2);
    assert Get(d, City) == Get(e, City);
    assert Get(d, ZipCode) == Get(e, ZipCode);
    assert Get(d, State) == Get(e, State);
    assert Get(d, Country) == Get(e, Country);
  }

  /** Typing into one input and then another commutes when the inputs differ, and
      the later of two edits to the same input wins. */
  lemma InputChangesCommute(d: FormData, f: TextField, v: string, g: TextField, w: string)
    ensures f != g ==>
      HandleInputChange(HandleInputChange(d, f, v), g, w)
      == HandleInputChange(HandleInputChange(d, g, w), f, v)
    ensures f == g ==>
      HandleInputChange(HandleInputChange(d, f, v), g, w) == HandleInputChange(d, g, w)
  {
    var a := HandleInputChange(HandleInputChange(d, f, v), g, w);
    var b := if f != g then HandleInputChange(HandleInputChange(d, g, w), f, v)
             else HandleInputChange(d, g, w);
    Extensionality(a, b);
  }
}
