/**
 The three regular languages the form accepts: phone numbers `/^\+?\d+$/`, zip codes
 `/^\d+$/` and e-mail addresses `/^[^\s@]+@[^\s@]+\.[^\s@]+$/`. None carries the `m` flag,
 so `^` and `$` anchor at the ends of the whole string.

 Each pattern has two definitions: one shaped like the regular expression (a split of
 the string into the pieces the expression concatenates), and a direct test that the
 validator uses. A lemma shows the two agree on every string.
 */
module Patterns {
  import opened Chars
  import opened Strings
  import opened Wrappers

  /** Every character is an ASCII digit. */
  predicate AllDigits(s: string) {
    forall k :: 0 <= k < |s| ==> IsDigit(s[k])
  }

  /** `\d+`: one or more ASCII digits. */
  predicate Digits(s: string) {
    |s| > 0 && AllDigits(s)
  }

  // ---------------------------------------------------------------- phone number

  /** `^\+?\d+$` as a split: an optional `+` followed by one or more digits. */
  predicate PhonePattern(s: string) {
    exists k :: 0 <= k <= |s| && (s[..k] == "" || s[..k] == "+") && Digits(s[k..])
  }

  /** The phone test used by the validator: drop one leading `+`, then require digits. */
  predicate IsPhoneNumber(s: string) {
    var body := if |s| > 0 && s[0] == '+' then s[1..] else s;
    Digits(body)
  }

  lemma PhoneMatchesPattern(s: string)
    ensures IsPhoneNumber(s) <==> PhonePattern(s)
  {
    if IsPhoneNumber(s) {
      if |s| > 0 && s[0] == '+' {
        assert s[..1] == "+";
      } else {
        assert s[..0] == "" && s[0..] == s;
      }
    }
    if PhonePattern(s) {
      var k :| 0 <= k <= |s| && (s[..k] == "" || s[..k] == "+") && Digits(s[k..]);
      if k == 1 {
        assert s[0] == s[..k][0] == '+';
      } else {
        assert k == 0 && s[k..] == s;
        assert IsDigit(s[0]);
      }
    }
  }

  // ---------------------------------------------------------------- zip code

  /** `^\d+$`. */
  predicate IsZipCode(s: string) {
    Digits(s)
  }

  // ---------------------------------------------------------------- e-mail address

  /** `[^\s@]`: anything but whitespace and `@`. */
  predicate AtomChar(c: char) {
    !IsWs(c) && c != '@'
  }

  /** `[^\s@]+`. */
  predicate Atom(s: string) {
    |s| > 0 && forall k :: 0 <= k < |s| ==> AtomChar(s[k])
  }

  /** `^[^\s@]+@[^\s@]+\.[^\s@]+$` as a split `local @ host . tail` into three atoms,
      the `@` at index `i` and the `.` at index `j`. */
  predicate EmailPattern(s: string) {
    exists i, j :: 0 <= i < j < |s| && s[i] == '@' && s[j] == '.'
                   && Atom(s[..i]) && Atom(s[i + 1..j]) && Atom(s[j + 1..])
  }

  /** The domain has a `.` with at least one character on either side. */
  predicate HasInnerDot(d: string) {
    exists j :: 0 < j < |d| - 1 && d[j] == '.'
  }

  /** The e-mail test used by the validator: no whitespace anywhere, a non-empty local
      part before the first `@`, no second `@`, and an inner dot in the domain. */
  predicate IsValidEmail(s: string) {
    && NoWs(s)
    && match IndexOf(s, '@')
       case None => false
       case Some(i) => i > 0 && '@' !in s[i + 1..] && HasInnerDot(s[i + 1..])
  }

  lemma EmailMatchesPattern(s: string)
    ensures IsValidEmail(s) <==> EmailPattern(s)
  {
    if IsValidEmail(s) {
      ValidEmailHasSplit(s);
    }
    if EmailPattern(s) {
      SplitIsValidEmail(s);
    }
  }

  lemma ValidEmailHasSplit(s: string)
    requires IsValidEmail(s)
    ensures EmailPattern(s)
  {
    var i := IndexOf(s, '@').value;
    var d := s[i + 1..];
    var j' :| 0 < j' < |d| - 1 && d[j'] == '.';
    var j := i + 1 + j';
    assert s[j] == '.';
    forall k | 0 <= k < i
      ensures AtomChar(s[..i][k])
    {
      assert s[..i][k] in s[..i];
    }
    var host, tail := s[i + 1..j], s[j + 1..];
    forall k | 0 <= k < |host|
      ensures AtomChar(host[k])
    {
      assert host[k] == d[k] && d[k] in d;
    }
    forall k | 0 <= k < |tail|
      ensures AtomChar(tail[k])
    {
      assert tail[k] == d[j' + 1 + k] && d[j' + 1 + k] in d;
    }
  }

  /** In a split `local @ host . tail`, every position lies in one of the atoms or is
      the `@` or the `.`; so nothing is whitespace and the only `@` is at `i`. */
  lemma SplitCharacters(s: string, i: nat, j: nat)
    requires 0 <= i < j < |s| && s[i] == '@' && s[j] == '.'
    requires Atom(s[..i]) && Atom(s[i + 1..j]) && Atom(s[j + 1..])
    ensures forall k :: 0 <= k < |s| ==> !IsWs(s[k]) && (k != i ==> s[k] != '@')
  {
    forall k | 0 <= k < |s|
      ensures !IsWs(s[k]) && (k != i ==> s[k] != '@')
    {
      if k < i {
        assert s[..i][k] == s[k];
      } else if i < k < j {
        assert s[i + 1..j][k - i - 1] == s[k];
      } else if j < k {
        assert s[j + 1..][k - j - 1] == s[k];
      }
    }
  }

  lemma SplitIsValidEmail(s: string)
    requires EmailPattern(s)
    ensures IsValidEmail(s)
  {
    var i, j :| 0 <= i < j < |s| && s[i] == '@' && s[j] == '.'
                && Atom(s[..i]) && Atom(s[i + 1..j]) && Atom(s[j + 1..]);
    SplitCharacters(s, i, j);
    assert '@' !in s[..i] by {
      forall k | 0 <= k < i
        ensures s[..i][k] != '@'
      {
      }
    }
    assert IndexOf(s, '@') == Some(i);
    var d := s[i + 1..];
    assert '@' !in d by {
      forall k | 0 <= k < |d|
        ensures d[k] != '@'
      {
        assert d[k] == s[i + 1 + k];
      }
    }
    assert d[j - i - 1] == '.';
  }
}
