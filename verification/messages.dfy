/**
 The messages the registration form shows, one constructor per message, and the exact
 text of each.
 */
module Messages {

  datatype Message =
    | FirstNameRequired | LastNameRequired
    | PhoneRequired | PhoneInvalid
    | EmailRequired | EmailInvalid
    | PasswordRequired | PasswordTooShort
    | PasswordNeedsUpper | PasswordNeedsLower | PasswordNeedsDigit | PasswordNeedsSpecial
    | PasswordsDiffer
    | Address1Required | CityRequired
    | ZipRequired | ZipInvalid
    | AgreeRequired

  /** The phrase the four character-rule messages of the password share. */
  const MustInclude: string := "Password must include at least one "

  /** The symbols the special-character message lists. */
  const ListedSpecials: string := "! @ # $ % ^ & * _ + { } : < > ?"

  function Text(m: Message): string {
    match m
    case FirstNameRequired => "First Name is required"
    case LastNameRequired => "Last Name is required"
    case PhoneRequired => "Phone Number is required"
    case PhoneInvalid => "Invalid phone number"
    case EmailRequired => "Email Address is required"
    case EmailInvalid => "Invalid email address"
    case PasswordRequired => "Password is required"
    case PasswordTooShort => "Password must be at least 6 characters long"
    case PasswordNeedsUpper => MustInclude + "uppercase letter"
    case PasswordNeedsLower => MustInclude + "lowercase letter"
    case PasswordNeedsDigit => MustInclude + "number"
    case PasswordNeedsSpecial => MustInclude + "special character (" + ListedSpecials + ")"
    case PasswordsDiffer => "Passwords do not match"
    case Address1Required => "Address Line 1 is required"
    case CityRequired => "City is required"
    case ZipRequired => "Zip Code is required"
    case ZipInvalid => "Invalid Zip Code"
    case AgreeRequired => "You must agree to the terms and conditions"
  }

  /** No message contains `/`, so the `</li>` that closes an item of the error list is
      the first `/` after the item opens. */
  lemma TextLacksSlash(m: Message)
    ensures '/' !in Text(m)
  {
    match m
    case FirstNameRequired | LastNameRequired | PhoneRequired | PhoneInvalid => NameAndPhoneLackSlash(m);
    case EmailRequired | EmailInvalid => EmailLacksSlash(m);
    case PasswordRequired | PasswordTooShort => PasswordBasicsLackSlash(m);
    case PasswordNeedsUpper | PasswordNeedsLower | PasswordNeedsDigit | PasswordNeedsSpecial =>
      CharacterRulesLackSlash(m);
    case PasswordsDiffer | Address1Required | CityRequired => ConfirmationAndAddressLackSlash(m);
    case ZipRequired | ZipInvalid | AgreeRequired => ZipAndAgreeLackSlash(m);
  }

  lemma NameAndPhoneLackSlash(m: Message)
    requires m.FirstNameRequired? || m.LastNameRequired? || m.PhoneRequired? || m.PhoneInvalid?
    ensures '/' !in Text(m)
  {
  }

  lemma EmailLacksSlash(m: Message)
    requires m.EmailRequired? || m.EmailInvalid?
    ensures '/' !in Text(m)
  {
  }

  lemma PasswordBasicsLackSlash(m: Message)
    requires m.PasswordRequired? || m.PasswordTooShort?
    ensures '/' !in Text(m)
  {
  }

  lemma SharedPartsLackSlash()
    ensures '/' !in MustInclude
    ensures '/' !in ListedSpecials
  {
  }

  lemma CharacterRulesLackSlash(m: Message)
    requires m.PasswordNeedsUpper? || m.PasswordNeedsLower? || m.PasswordNeedsDigit? || m.PasswordNeedsSpecial?
    ensures '/' !in Text(m)
  {
    SharedPartsLackSlash();
  }

  lemma ConfirmationAndAddressLackSlash(m: Message)
    requires m.PasswordsDiffer? || m.Address1Required? || m.CityRequired?
    ensures '/' !in Text(m)
  {
  }

  lemma ZipAndAgreeLackSlash(m: Message)
    requires m.ZipRequired? || m.ZipInvalid? || m.AgreeRequired?
    ensures '/' !in Text(m)
  {
  }
}
