/**
 `formatErrorMessages`: the HTML list shown in the error dialog, one `<li>` per error in
 the order the errors were recorded. The messages are inserted as they are, without
 escaping.

 Its partner is a parser that reads the list back. Since the special-character message
 itself contains `<` and `>`, the parser finds the end of an item by the first `/`,
 which no message contains.
 */
module ErrorHtml {
  import opened Wrappers
  import opened Strings
  import opened Messages
  import opened Validation

  const ListOpen: string := "<ul>"
  const ListClose: string := "</ul>"
  const ItemOpen: string := "<li>"
  const ItemClose: string := "</li>"

  /** The texts of the messages of a list of errors, in order. */
  function Texts(errs: seq<FieldError>): (ms: seq<string>)
    ensures |ms| == |errs|
    ensures forall k :: 0 <= k < |errs| ==> ms[k] == Text(errs[k].message)
  {
    if errs == [] then [] else [Text(errs[0].message)] + Texts(errs[1..])
  }

  function Items(errs: seq<FieldError>): string {
    if errs == [] then "" else ItemOpen + Text(errs[0].message) + ItemClose + Items(errs[1..])
  }

  /** `formatErrorMessages(errors)`. */
  function FormatErrorMessages(errs: seq<FieldError>): string {
    ListOpen + Items(errs) + ListClose
  }

  /** Reads one `<li>…</li>` item off the front of `s`, the item's text ending at its
      first `/`; returns the text and what follows the item. */
  function ParseItem(s: string): (r: Option<(string, string)>)
    ensures r.Some? ==> |r.value.1| < |s|
  {
    if |s| < 4 || s[..4] != ItemOpen then None
    else
      var body := s[4..];
      match IndexOf(body, '/')
      case None => None
      case Some(k) =>
        if k == 0 || body[k - 1] != '<' || k + 4 > |body| || body[k + 1..k + 4] != "li>" then None
        else Some((body[..k - 1], body[k + 4..]))
  }

  /** Reads a run of items. */
  function ParseItems(s: string): Option<seq<string>>
    decreases |s|
  {
    if s == [] then Some([])
    else
      match ParseItem(s)
      case None => None
      case Some((m, rest)) =>
        match ParseItems(rest)
        case None => None
        case Some(ms) => Some([m] + ms)
  }

  /** Reads the message list back from the dialog's HTML. */
  function ParseErrorList(html: string): Option<seq<string>> {
    if |html| < 9 || html[..4] != ListOpen || html[|html| - 5..] != ListClose then None
    else ParseItems(html[4..|html| - 5])
  }

  /** The first `/` of `m + "</" + r` is the one after `m`, when `m` has none. */
  lemma SlashAfterMessage(m: string, r: string)
    requires '/' !in m
    ensures IndexOf(m + "</" + r, '/') == Some(|m| + 1)
  {
    var s := m + "</" + r;
    assert s[|m| + 1] == '/';
  }

  /** Where the parser looks inside `m + "</li>" + tail`. */
  lemma ItemBodyFacts(m: string, tail: string)
    requires '/' !in m
    ensures var body := m + "</" + ("li>" + tail);
      && IndexOf(body, '/') == Some(|m| + 1)
      && body[|m|] == '<'
      && body[|m| + 2..|m| + 5] == "li>"
      && body[|m| + 5..] == tail
      && body[..|m|] == m
  {
    SlashAfterMessage(m, "li>" + tail);
    var body := m + "</" + ("li>" + tail);
    assert body[|m| + 2..] == "li>" + tail;
  }

  /** An item whose text has no `/` is read back whole. */
  lemma ParseItemOf(m: string, tail: string)
    requires '/' !in m
    ensures ParseItem(ItemOpen + m + ItemClose + tail) == Some((m, tail))
  {
    var s := ItemOpen + m + ItemClose + tail;
    var body := m + "</" + ("li>" + tail);
    assert s == ItemOpen + body;
    assert s[..4] == ItemOpen && s[4..] == body;
    ItemBodyFacts(m, tail);
  }

  lemma {:induction false} ParseItemsInverts(errs: seq<FieldError>)
    ensures ParseItems(Items(errs)) == Some(Texts(errs))
  {
    if errs != [] {
      ParseItemsInverts(errs[1..]);
      TextLacksSlash(errs[0].message);
      ParseItemOf(Text(errs[0].message), Items(errs[1..]));
      assert Items(errs) == ItemOpen + Text(errs[0].message) + ItemClose + Items(errs[1..]);
    }
  }

  /** Reading the formatted list back yields the messages in order, so the dialog
      shows exactly one `<li>` item per error, in the order the errors were recorded. */
  lemma FormatRoundTrip(errs: seq<FieldError>)
    ensures ParseErrorList(FormatErrorMessages(errs)) == Some(Texts(errs))
  {
    var items := Items(errs);
    var html := ListOpen + items + ListClose;
    assert html[..4] == ListOpen;
    assert html[|html| - 5..] == ListClose;
    assert html[4..|html| - 5] == items;
    ParseItemsInverts(errs);
    assert FormatErrorMessages(errs) == html;
  }
}
