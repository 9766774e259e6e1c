# Registration form validator

A Dafny model of the client-side validation on the user registration page of the
tree-sponsorship shop front end (`src/pages/user/Register.jsx`). It covers these parts:

- the form record and its two change handlers;
- the e-mail test `isValidEmail`;
- `validateForm`, which collects one message per broken field in a fixed check order;
- `formatErrorMessages`, which renders those messages as an HTML list;
- the gate in `handleSubmit` that decides between the error dialog, the
  password-mismatch dialog and the request that creates the user.

The modules follow the page's structure:

| file | module | contents |
|---|---|---|
| `wrappers.dfy` | `Wrappers` | `Option` |
| `chars.dfy` | `Chars` | character classes: ECMAScript white space and line terminators (shared by `trim` and `\s`), ASCII digits and letters, and the special-character class of the password rule |
| `strings.dfy` | `Strings` | `trim`, UTF-16 length, and first index of a character |
| `patterns.dfy` | `Patterns` | the phone, zip and e-mail regular expressions |
| `form.dfy` | `Form` | the form record and the change handlers |
| `messages.dfy` | `Messages` | the error messages and their exact texts |
| `password.dfy` | `Password` | the prioritised password rule chain |
| `validation.dfy` | `Validation` | `validateForm` |
| `errorhtml.dfy` | `ErrorHtml` | `formatErrorMessages` and a parser that reads its output back |
| `submit.dfy` | `Submit` | the `handleSubmit` gate |

Modelling choices:

- **Errors.** The error object is an ordered sequence of (field, message) pairs. Its keys
  are plain identifiers, each set at most once, so a `for … in` loop visits them in
  insertion order, which is the check order.
- **Messages.** Each message is a constructor of `Messages.Message`. `Messages.Text`
  gives the exact string the page uses.
- **Regular expressions.** Each regular expression has two definitions:
  - a predicate shaped like the expression, which splits the string into the pieces
    the expression concatenates;
  - the direct test the validator uses.

  A lemma proves the two agree on every string.
- **Character classes.** None of the expressions has the `u` flag, so `\d`, `[A-Z]`
  and `[a-z]` are ASCII only.
- **Password length.** `password.length` counts UTF-16 code units. `Strings.Utf16Length`
  counts a character above U+FFFF as two.

## Model

| member | source | states |
|---|---|---|
| Form.HandleInputChange | src/pages/user/Register.jsx:40-45 | the edited text field takes the new value; every other text field and the checkbox keep theirs |
| Form.HandleCheckboxChange | src/pages/user/Register.jsx:47-52 | `agree` takes the checkbox state; every text field keeps its value |
| Form.InputChangesCommute | src/pages/user/Register.jsx:40-45 | edits to two different fields commute; of two edits to the same field, the later one wins |
| Patterns.EmailMatchesPattern | src/pages/user/Register.jsx:54-57 | the direct e-mail test accepts a string exactly when it splits as `[^\s@]+ @ [^\s@]+ . [^\s@]+` over the whole string |
| Patterns.ValidEmailHasSplit | src/pages/user/Register.jsx:54-57 | a string the e-mail test accepts has the three-atom split |
| Patterns.SplitIsValidEmail | src/pages/user/Register.jsx:54-57 | a string with the three-atom split passes the e-mail test |
| Patterns.PhoneMatchesPattern | src/pages/user/Register.jsx:73 | the direct phone test accepts a string exactly when it is an optional `+` followed by one or more ASCII digits |
| Strings.TrimSpec | src/pages/user/Register.jsx:63 | `trim` returns the infix left after cutting white space from both ends; neither end of the result is white space |
| Strings.TrimStartSpec | src/pages/user/Register.jsx:63 | the leading cut is a run of white space, and what remains does not start with white space |
| Strings.TrimEndSpec | src/pages/user/Register.jsx:63 | the trailing cut is a run of white space, and what remains does not end with white space |
| Strings.BlankIffAllWs | src/pages/user/Register.jsx:63-69 | a value fails the `!value.trim()` test exactly when all of its characters are white space |
| Strings.Utf16Length | src/pages/user/Register.jsx:85 | the length in code units is between the number of characters and twice that, and equals the number of characters when no character lies above U+FFFF |
| Strings.Utf16LengthOfChar | src/pages/user/Register.jsx:85 | one character is two code units when it lies above U+FFFF and one otherwise |
| Strings.Utf16LengthAppend | src/pages/user/Register.jsx:85 | the code-unit length of a concatenation is the sum of the parts' lengths, so with the one-character case it fixes the length of every string |
| Password.ThreeAstralCharactersAreLongEnough | src/pages/user/Register.jsx:85 | a password of three characters above U+FFFF has length 6, so it meets the length rule |
| Strings.IndexOf | src/pages/user/Register.jsx:55 | the first position of a character, or none exactly when the character is absent |
| Chars.SpaceIsSpecial | src/pages/user/Register.jsx:94 | the space is in the password's special-character class, although it is also white space |
| Password.Any | src/pages/user/Register.jsx:88-94 | a one-class regular-expression test succeeds exactly when some character is in the class |
| Password.FirstBroken | src/pages/user/Register.jsx:83-98 | no rule is broken exactly when the password keeps all six; otherwise the result is the first broken rule in the order blank, length, upper, lower, digit, special |
| Password.CheckIsFirstBroken | src/pages/user/Register.jsx:83-98 | the password branch yields the message of the first broken rule, and nothing when no rule is broken |
| Password.CheckPasswordReportsFirstFailure | src/pages/user/Register.jsx:83-98 | the password branch yields at most one message: none exactly when every rule holds, otherwise the first broken rule's message |
| Validation.Collect | src/pages/user/Register.jsx:59-125 | collecting errors over a list of fields yields at most one error per listed field, and each error carries that field's own check result |
| Validation.CollectInCheckOrder | src/pages/user/Register.jsx:59-125 | errors collected over fields in ascending check order are themselves in check order |
| Validation.CollectLookup | src/pages/user/Register.jsx:59-125 | the entry for a field in the collected list is that field's check result if the field is listed, and none otherwise |
| Validation.ValidateForm | src/pages/user/Register.jsx:59-125 | the errors are in check order, at most one per checked field, only for checked fields, and each carries the message its field's check yields |
| Validation.ValidateFormLookup | src/pages/user/Register.jsx:59-125 | each field's entry is what its own check yields; address line 2, state and country never have an entry |
| Validation.OneErrorPerField | src/pages/user/Register.jsx:59-125 | no field appears twice among the errors |
| Validation.RequiredFieldRule | src/pages/user/Register.jsx:63-69 | first name, last name, address line 1 and city get their "is required" message exactly when empty or white space only, and no message otherwise |
| Validation.PhoneRule | src/pages/user/Register.jsx:71-75 | phone: "required" exactly when blank; "invalid" exactly when not blank and the untrimmed value is not `+`? digits; no error exactly otherwise |
| Validation.PhoneOutcome | src/pages/user/Register.jsx:71-75 | the phone check alone, with the same three cases |
| Validation.PaddedPhoneIsInvalid | src/pages/user/Register.jsx:71-75 | `" 123"` passes the required test but gets "Invalid phone number" |
| Validation.EmailRule | src/pages/user/Register.jsx:77-81 | e-mail: "required" exactly when blank; "invalid" exactly when not blank and without the three-atom split; no error exactly otherwise |
| Validation.EmailOutcome | src/pages/user/Register.jsx:77-81 | the e-mail check alone, with the same three cases |
| Validation.PasswordRule | src/pages/user/Register.jsx:83-98 | the password entry is absent exactly when every rule holds, and otherwise is the first broken rule's message |
| Validation.PasswordOutcome | src/pages/user/Register.jsx:83-98 | the password check alone, with the same statement |
| Validation.ConfirmationRule | src/pages/user/Register.jsx:100-102 | the confirmation has an entry exactly when it differs from the password, whatever the password's own entry; that entry is "Passwords do not match" |
| Validation.ZipRule | src/pages/user/Register.jsx:113-117 | zip code: "required" exactly when blank; "invalid" exactly when not blank and the untrimmed value is not one or more digits; no error exactly when it is digits |
| Validation.ZipOutcome | src/pages/user/Register.jsx:113-117 | the zip check alone, with the same three cases |
| Validation.AgreeRule | src/pages/user/Register.jsx:120-122 | the terms message is present exactly when the box is unchecked |
| Validation.InputChangeIsLocal | src/pages/user/Register.jsx:40-45 | editing one text field changes no other field's entry, except that editing the password can change the confirmation's |
| Validation.CheckboxChangeIsLocal | src/pages/user/Register.jsx:47-52 | toggling the checkbox changes no entry but the terms entry |
| Validation.InitialFormErrors | src/pages/user/Register.jsx:20-34 | the empty initial form has an entry for every checked field except the confirmation |
| Messages.TextLacksSlash | src/pages/user/Register.jsx:64-121 | no message text contains `/` |
| ErrorHtml.Texts | src/pages/user/Register.jsx:220-222 | one text per error, and the k-th text is the k-th error's message text |
| ErrorHtml.ParseItemOf | src/pages/user/Register.jsx:221 | an `<li>` item whose text has no `/` is read back whole, with the rest of the string after it |
| ErrorHtml.ParseItemsInverts | src/pages/user/Register.jsx:220-222 | reading the concatenated items back yields the messages in order |
| ErrorHtml.FormatRoundTrip | src/pages/user/Register.jsx:217-227 | reading the formatted list back yields exactly the error messages, in the order the errors were recorded, so there is one `<li>` per error |
| Submit.ValidateFormFollowsRules | src/pages/user/Register.jsx:59-125 | every field's entry is absent exactly when the form keeps that field's rule |
| Submit.EntriesDecideAcceptable | src/pages/user/Register.jsx:133 | a list whose entries follow the rules is empty exactly when every rule holds |
| Submit.NoErrorsIffAcceptable | src/pages/user/Register.jsx:59-125 | `validateForm` reports nothing exactly when every rule of every field holds |
| Submit.SubmitGate | src/pages/user/Register.jsx:130-162 | `handleSubmit` stores the validator's errors, and it sends the request exactly when there are none, carrying the form unchanged |
| Submit.MismatchUnreachable | src/pages/user/Register.jsx:148-162 | `handleSubmit` never shows the password-mismatch dialog, because the validator already reports a differing confirmation |
| Submit.PostIffAcceptable | src/pages/user/Register.jsx:130-162 | `handleSubmit` sends the request exactly when the form keeps every rule |
| Submit.ErrorDialogListsErrors | src/pages/user/Register.jsx:133-145 | the error dialog is only shown when there is an error, and its HTML lists exactly the stored errors' messages in order |

## Left out

- The request to the user-creation endpoint, its response handling, the dialogs and the
  navigation after success (`src/pages/user/Register.jsx:164-213`) are I/O and foreign
  UI libraries. The model keeps only which of the three actions a submit takes.
- The JSX markup and styling of every page are left out as rendering. The registration
  form's markup does carry behaviour, which the next line records.
- Submit.HandleSubmit: the model starts at the submit event that reaches `handleSubmit`.
  It leaves out the browser's own constraint checks, which run first and cancel the
  submit. Those checks come from `required` on ten inputs and `type="email"` on the
  e-mail input (`src/pages/user/Register.jsx:248-249, 295-654`). One of the `required`
  inputs is `country`, which `validateForm` never checks. So a form that keeps every
  rule of `Submit.Acceptable` but has an empty country never reaches `handleSubmit`, and
  the `Submit` lemmas hold of `handleSubmit` alone, not of the page.
- `src/pages/Checkout.jsx` is left out. Its form handler is a one-field record update
  without validation, and its prices are floating-point. It reads the cart through the
  cart store.
- `src/pages/SuccessPage.jsx` is static content.
- `src/App.jsx` is routing and provider configuration.
- The cart store `src/store/CartContext`, which `Checkout.jsx` reads, is not modelled.
- Form.HandleInputChange: takes one of the twelve text fields, not an arbitrary `name`
  string. An input whose `name` is not a form field would add a key that no check reads.
- Chars.IsWs: the white-space set is the fixed list of code points that ECMAScript's
  `trim` and `\s` use. Several proofs depend on what lies outside it:
  - the e-mail equivalence needs `@` and `.` to be outside it;
  - the zip rule needs the ASCII digits to be outside it;
  - `Chars.SpaceIsSpecial` needs the space to be inside it.
- Form.FormData: field values are sequences of Unicode scalar values. A JavaScript
  string may hold an unpaired surrogate, which `.length` counts as one code unit. Such a
  string cannot be represented here, so the model says nothing about it.
- ErrorHtml.FormatErrorMessages: the model makes no claim about how a browser renders the
  unescaped `<` and `>` of the special-character message. The round trip is stated over
  the HTML string itself.
- Messages.Text: the texts are compared as character sequences. Only `/` is proved absent
  from them, which is what the parser needs.
