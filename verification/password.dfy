/**
 The password check: a prioritised chain of six rules of which only the first one that
 fails is reported.
 */
module Password {
  import opened Chars
  import opened Strings
  import opened Wrappers
  import opened Messages

  /** The shortest accepted password, in UTF-16 code units. */
  const MinLength: nat := 6

  /** Whether some character of `s` satisfies `p`: what `/[…]/.test(s)` asks of a
      one-character class. */
  function Any(s: string, p: char -> bool): (b: bool)
    ensures b <==> exists k :: 0 <= k < |s| && p(s[k])
  {
    if s == [] then false
    else if p(s[0]) then true
    else
      var b := Any(s[1..], p);
      assert forall k :: 0 < k < |s| ==> s[k] == s[1..][k - 1];
      b
  }

  /** Three characters above U+FFFF are six UTF-16 code units, so they meet the length
      rule although the string holds only three characters. */
  lemma ThreeAstralCharactersAreLongEnough()
    ensures var p := "\U{1F333}\U{1F333}\U{1F333}"; |p| == 3 && Utf16Length(p) == MinLength
  {
  }

  /** The six rules. */
  datatype Rule = NotBlank | LongEnough | HasUpper | HasLower | HasDigit | HasSpecial

  /** The position of a rule in the order the rules are tried. */
  function Rank(rule: Rule): nat {
    match rule
    case NotBlank => 0
    case LongEnough => 1
    case HasUpper => 2
    case HasLower => 3
    case HasDigit => 4
    case HasSpecial => 5
  }

  /** `rule` is broken by `p` and every rule tried before it is kept. */
  predicate FirstBrokenRule(p: string, rule: Rule) {
    && !Satisfies(p, rule)
    && forall earlier: Rule :: Rank(earlier) < Rank(rule) ==> Satisfies(p, earlier)
  }

  /** What each rule demands of the password, stated directly over its characters. */
  predicate Satisfies(p: string, rule: Rule) {
    match rule
    case NotBlank => !AllWs(p)
    case LongEnough => Utf16Length(p) >= MinLength
    case HasUpper => exists k :: 0 <= k < |p| && IsUpper(p[k])
    case HasLower => exists k :: 0 <= k < |p| && IsLower(p[k])
    case HasDigit => exists k :: 0 <= k < |p| && IsDigit(p[k])
    case HasSpecial => exists k :: 0 <= k < |p| && IsSpecial(p[k])
  }

  function Message(rule: Rule): Message {
    match rule
    case NotBlank => PasswordRequired
    case LongEnough => PasswordTooShort
    case HasUpper => PasswordNeedsUpper
    case HasLower => PasswordNeedsLower
    case HasDigit => PasswordNeedsDigit
    case HasSpecial => PasswordNeedsSpecial
  }

  /** The password branch of `validateForm`: the message to store under `password`,
      or none. The blank test trims; the length and the character tests do not. */
  function CheckPassword(p: string): Option<Message> {
    if IsBlank(p) then Some(PasswordRequired)
    else if Utf16Length(p) < MinLength then Some(PasswordTooShort)
    else if !Any(p, IsUpper) then Some(PasswordNeedsUpper)
    else if !Any(p, IsLower) then Some(PasswordNeedsLower)
    else if !Any(p, IsDigit) then Some(PasswordNeedsDigit)
    else if !Any(p, IsSpecial) then Some(PasswordNeedsSpecial)
    else None
  }

  /** The first rule that `p` breaks, if any. */
  function FirstBroken(p: string): (r: Option<Rule>)
    ensures r == None <==> forall rule: Rule :: Satisfies(p, rule)
    ensures forall rule: Rule :: FirstBrokenRule(p, rule) ==> r == Some(rule)
  {
    if !Satisfies(p, NotBlank) then Some(NotBlank)
    else if !Satisfies(p, LongEnough) then Some(LongEnough)
    else if !Satisfies(p, HasUpper) then Some(HasUpper)
    else if !Satisfies(p, HasLower) then Some(HasLower)
    else if !Satisfies(p, HasDigit) then Some(HasDigit)
    else if !Satisfies(p, HasSpecial) then Some(HasSpecial)
    else None
  }

  /** Each character rule is exactly the scan the check performs. */
  lemma ScansMatchRules(p: string)
    ensures Any(p, IsUpper) == Satisfies(p, HasUpper)
    ensures Any(p, IsLower) == Satisfies(p, HasLower)
    ensures Any(p, IsDigit) == Satisfies(p, HasDigit)
    ensures Any(p, IsSpecial) == Satisfies(p, HasSpecial)
  {
  }

  /** The check is the message of the first broken rule. */
  lemma CheckIsFirstBroken(p: string)
    ensures CheckPassword(p) == FirstBroken(p).Map(Message)
  {
    BlankIffAllWs(p);
    ScansMatchRules(p);
  }

  /** The check reports nothing exactly when the password keeps every rule, and
      otherwise the message of the first rule that it breaks. */
  lemma CheckPasswordReportsFirstFailure(p: string)
    ensures CheckPassword(p) == None <==> forall rule: Rule :: Satisfies(p, rule)
    ensures forall rule: Rule :: FirstBrokenRule(p, rule) ==> CheckPassword(p) == Some(Message(rule))
  {
    CheckIsFirstBroken(p);
  }
}
