/**
 What the popup writes into its results area: one structured line per
 appended fragment, the fragment's HTML (`Markup`), and the text of that
 HTML with its tags removed (`Text`).
 */
module Lines {
  import opened Wrappers
  import opened Strings

  /** The message shown when the background page has no record for the tab. */
  const ErrorMessage: string :=
    "Error: could not " + "get http headers, " + "please try " + "refreshing the page."

  datatype Line =
    | ErrorText(message: string)
      /** A section heading; only the response heading carries the elapsed time. */
    | Heading(title: string, elapsed: Option<string>)
      /** The status line printed above a section's first header. */
    | Status(text: string)
    | HeaderRow(name: string, value: string)
    | CookieRow(name: string, value: string)

  /** The HTML fragment the popup appends to its results element for a line. */
  function Markup(l: Line): string {
    match l
    case ErrorText(m) => "<p class=\"error-text\">" + m + "</p>"
    case Heading(t, None) => "<h2>" + t + "</h2>"
    case Heading(t, Some(e)) => "<h2>" + t + " <small>(in " + e + "s)</small></h2>"
    case Status(t) => "<p><b>" + t + "</b></p>"
    case HeaderRow(n, v) => "<p><b>" + n + ":</b> " + v + "</p>"
    case CookieRow(n, v) => "<p><b>" + n + ":</b> " + v + "</p>"
  }

  /** No text field of the line holds a `<`, so none of them can open a tag. */
  predicate Plain(l: Line) {
    match l
    case ErrorText(m) => '<' !in m
    case Heading(t, None) => '<' !in t
    case Heading(t, Some(e)) => '<' !in t && '<' !in e
    case Status(t) => '<' !in t
    case HeaderRow(n, v) => '<' !in n && '<' !in v
    case CookieRow(n, v) => '<' !in n && '<' !in v
  }

  /** The text of a line: the markup text of its fragment with the tags
      removed. The browser would further decode any character reference in
      it; that step is not part of this function. */
  function Text(l: Line): (t: string)
    ensures Plain(l) ==> StripTags(Markup(l)) == t
  {
    match l
    case ErrorText(m) => StripErrorText(m); m
    case Heading(t, None) => StripHeading(t); t
    case Heading(t, Some(e)) => StripTimedHeading(t, e); t + " (in " + e + "s)"
    case Status(t) => StripStatus(t); t
    case HeaderRow(n, v) => StripRow(n, v); n + ": " + v
    case CookieRow(n, v) => StripRow(n, v); n + ": " + v
  }

  /** Every field of a line is part of its text, so a line whose text holds
      no `<` is plain, and its text is then its markup with the tags removed. */
  lemma PlainWhenTextIs(l: Line)
    requires '<' !in Text(l)
    ensures Plain(l) && StripTags(Markup(l)) == Text(l)
  {
  }

  /* ------------------------------------------------------------ tag removal */

  /** What follows the first `>` of `s`, or nothing when there is none. */
  function AfterTag(s: string): (r: string)
    ensures |r| <= |s|
  {
    if |s| == 0 then []
    else if s[0] == '>' then s[1..]
    else AfterTag(s[1..])
  }

  /** `s` with every tag, from a `<` through the next `>`, removed. */
  function StripTags(s: string): string
    decreases |s|
  {
    if |s| == 0 then []
    else if s[0] == '<' then StripTags(AfterTag(s[1..]))
    else [s[0]] + StripTags(s[1..])
  }

  /** A single tag: `<`, a name without `>`, then `>`. */
  predicate IsTag(tag: string) {
    |tag| >= 2 && tag[0] == '<' && tag[|tag| - 1] == '>' && '>' !in tag[1..|tag| - 1]
  }

  lemma {:induction false} AfterTagSkips(body: string, rest: string)
    requires '>' !in body
    ensures AfterTag(body + ">" + rest) == rest
  {
    if |body| > 0 {
      assert (body + ">" + rest)[1..] == body[1..] + ">" + rest;
      assert '>' !in body[1..] by { assert body == [body[0]] + body[1..]; }
      AfterTagSkips(body[1..], rest);
    }
  }

  /** A tag in front of `rest` contributes no text. */
  lemma TagThen(tag: string, rest: string)
    requires IsTag(tag)
    ensures StripTags(tag + rest) == StripTags(rest)
  {
    var body := tag[1..|tag| - 1];
    assert tag == [tag[0]] + body + [tag[|tag| - 1]];
    assert (tag + rest)[1..] == body + ">" + rest;
    AfterTagSkips(body, rest);
  }

  /** Text without `<` in front of `rest` is kept as it is. */
  lemma {:induction false} PlainThen(s: string, rest: string)
    requires '<' !in s
    ensures StripTags(s + rest) == s + StripTags(rest)
  {
    if |s| > 0 {
      assert s[0] != '<' by { assert s[0] in s; }
      assert '<' !in s[1..] by { assert s == [s[0]] + s[1..]; }
      assert (s + rest)[0] == s[0];
      assert (s + rest)[1..] == s[1..] + rest;
      PlainThen(s[1..], rest);
      assert s == [s[0]] + s[1..];
    } else {
      assert s + rest == rest;
    }
  }

  /** Text without `<` is kept as it is. */
  lemma PlainStrip(s: string)
    requires '<' !in s
    ensures StripTags(s) == s
  {
    PlainThen(s, []);
    assert s + [] == s;
  }

  /** A closing tag at the end contributes no text. */
  lemma TagAtEnd(tag: string)
    requires IsTag(tag)
    ensures StripTags(tag) == []
  {
    TagThen(tag, []);
    assert tag + [] == tag;
  }

  /** `<p><b>`, which opens status lines and rows. */
  lemma OpenBoldThen(rest: string)
    ensures StripTags("<p><b>" + rest) == StripTags(rest)
  {
    assert IsTag("<p>") && IsTag("<b>");
    assert "<p><b>" + rest == "<p>" + ("<b>" + rest);
    TagThen("<p>", "<b>" + rest);
    TagThen("<b>", rest);
  }

  /** `</b></p>`, which closes a status line. */
  lemma CloseBoldAtEnd()
    ensures StripTags("</b></p>") == []
  {
    assert IsTag("</b>") && IsTag("</p>");
    assert "</b></p>" == "</b>" + "</p>";
    TagAtEnd("</p>");
    TagThen("</b>", "</p>");
  }

  /** `:</b> `, between a row's name and its value. */
  lemma RowSeparatorThen(rest: string)
    ensures StripTags(":</b> " + rest) == ": " + StripTags(rest)
  {
    assert IsTag("</b>");
    assert ":</b> " + rest == ":" + ("</b>" + (" " + rest));
    PlainThen(":", "</b>" + (" " + rest));
    TagThen("</b>", " " + rest);
    PlainThen(" ", rest);
    assert ":" + (" " + StripTags(rest)) == ": " + StripTags(rest);
  }

  /** ` <small>(in `, between the response title and the elapsed time. */
  lemma ElapsedOpenThen(rest: string)
    ensures StripTags(" <small>(in " + rest) == " (in " + StripTags(rest)
  {
    assert IsTag("<small>");
    assert " <small>(in " + rest == " " + ("<small>" + ("(in " + rest));
    PlainThen(" ", "<small>" + ("(in " + rest));
    TagThen("<small>", "(in " + rest);
    PlainThen("(in ", rest);
    assert " " + ("(in " + StripTags(rest)) == " (in " + StripTags(rest);
  }

  /** `s)</small></h2>`, after the elapsed time. */
  lemma ElapsedCloseAtEnd()
    ensures StripTags("s)</small></h2>") == "s)"
  {
    assert IsTag("</small>") && IsTag("</h2>");
    assert "s)</small></h2>" == "s)" + ("</small>" + "</h2>");
    TagAtEnd("</h2>");
    TagThen("</small>", "</h2>");
    PlainThen("s)", "</small>" + "</h2>");
    assert "s)" + [] == "s)";
  }

  lemma StripErrorText(m: string)
    ensures '<' !in m ==> StripTags(Markup(ErrorText(m))) == m
  {
    if '<' !in m {
      assert IsTag("<p class=\"error-text\">") && IsTag("</p>");
      assert Markup(ErrorText(m)) == "<p class=\"error-text\">" + (m + "</p>");
      TagAtEnd("</p>");
      PlainThen(m, "</p>");
      TagThen("<p class=\"error-text\">", m + "</p>");
      assert m + [] == m;
    }
  }

  lemma StripHeading(t: string)
    ensures '<' !in t ==> StripTags(Markup(Heading(t, None))) == t
  {
    if '<' !in t {
      assert IsTag("<h2>") && IsTag("</h2>");
      assert Markup(Heading(t, None)) == "<h2>" + (t + "</h2>");
      TagAtEnd("</h2>");
      PlainThen(t, "</h2>");
      TagThen("<h2>", t + "</h2>");
      assert t + [] == t;
    }
  }

  /** The response heading with its elapsed time. */
  lemma StripTimedHeading(t: string, e: string)
    ensures '<' !in t && '<' !in e ==> StripTags(Markup(Heading(t, Some(e)))) == t + " (in " + e + "s)"
  {
    if '<' !in t && '<' !in e {
      TimedHeadingMarkup(t, e);
      ElapsedCloseAtEnd();
      TimedHeadingStrip(t, e, "s)</small></h2>", "s)");
      TimedHeadingText(t, e);
    }
  }

  lemma TimedHeadingMarkup(t: string, e: string)
    ensures Markup(Heading(t, Some(e))) == "<h2>" + (t + (" <small>(in " + (e + "s)</small></h2>")))
  {
  }

  /** The response heading with any closing markup whose text is `c`. */
  lemma TimedHeadingStrip(t: string, e: string, close: string, c: string)
    requires '<' !in t && '<' !in e && StripTags(close) == c
    ensures StripTags("<h2>" + (t + (" <small>(in " + (e + close)))) == t + (" (in " + (e + c))
  {
    var after := e + close;
    PlainThen(e, close);
    ElapsedOpenThen(after);
    PlainThen(t, " <small>(in " + after);
    assert IsTag("<h2>");
    TagThen("<h2>", t + (" <small>(in " + after));
  }

  lemma TimedHeadingText(t: string, e: string)
    ensures t + (" (in " + (e + "s)")) == t + " (in " + e + "s)"
  {
  }

  lemma StripStatus(t: string)
    ensures '<' !in t ==> StripTags(Markup(Status(t))) == t
  {
    if '<' !in t {
      assert Markup(Status(t)) == "<p><b>" + (t + "</b></p>");
      CloseBoldAtEnd();
      PlainThen(t, "</b></p>");
      OpenBoldThen(t + "</b></p>");
      assert t + [] == t;
    }
  }

  /** A header or cookie row. */
  lemma StripRow(n: string, v: string)
    ensures '<' !in n && '<' !in v ==> StripTags(Markup(HeaderRow(n, v))) == n + ": " + v
    ensures '<' !in n && '<' !in v ==> StripTags(Markup(CookieRow(n, v))) == n + ": " + v
  {
    if '<' !in n && '<' !in v {
      var tail := n + (":</b> " + (v + "</p>"));
      assert Markup(HeaderRow(n, v)) == "<p><b>" + tail;
      assert Markup(CookieRow(n, v)) == "<p><b>" + tail;
      assert IsTag("</p>");
      TagAtEnd("</p>");
      PlainThen(v, "</p>");
      RowSeparatorThen(v + "</p>");
      PlainThen(n, ":</b> " + (v + "</p>"));
      OpenBoldThen(tail);
      assert v + [] == v;
      assert n + (": " + v) == n + ": " + v;
    }
  }

  /** A header or cookie row shows no markup when neither of its parts does. */
  lemma RowTextEscaped(l: Line)
    requires l.HeaderRow? || l.CookieRow?
    requires '<' !in l.name && '>' !in l.name && '<' !in l.value && '>' !in l.value
    ensures '<' !in Text(l) && '>' !in Text(l)
  {
  }

  /** `key[0].toUpperCase() + key.substring(1)`: only the first character is
      case-mapped; the rest of the key is kept as it is. */
  function Capitalize(key: string): (t: string)
    requires |key| > 0
    ensures |t| == |key| && t[1..] == key[1..]
    ensures !IsLower(t[0]) && LowerChar(t[0]) == LowerChar(key[0])
  {
    [UpperChar(key[0])] + key[1..]
  }

  /** The three section keys become the three headings. */
  lemma CapitalizeKeys()
    ensures Capitalize("request") == "Request"
    ensures Capitalize("response") == "Response"
    ensures Capitalize("cookie") == "Cookie"
  {
    CapitalizeLowerKey("request", "Request");
    CapitalizeLowerKey("response", "Response");
    CapitalizeLowerKey("cookie", "Cookie");
  }

  lemma CapitalizeLowerKey(key: string, title: string)
    requires |key| > 0 && |title| == |key| && title[1..] == key[1..]
    requires IsLower(key[0]) && title[0] as int == key[0] as int - 32
    ensures Capitalize(key) == title
  {
    var t := Capitalize(key);
    assert t == [t[0]] + t[1..];
    assert title == [title[0]] + title[1..];
  }

  /** The headings `printResults` writes: only the response heading carries
      the elapsed time. */
  lemma SectionHeadings(elapsed: string)
    ensures HeadingLine("request", elapsed) == Heading("Request", None)
    ensures HeadingLine("response", elapsed) == Heading("Response", Some(elapsed))
    ensures HeadingLine("cookie", elapsed) == Heading("Cookie", None)
  {
    CapitalizeKeys();
  }

  /** `printHeading(key)`: the capitalized key, and for the `response` key
      only, the elapsed time as the popup formats it. */
  function HeadingLine(key: string, elapsed: string): (l: Line)
    requires |key| > 0
    ensures l.Heading? && l.title == Capitalize(key)
    ensures l.elapsed.Some? <==> key == "response"
    ensures l.elapsed.Some? ==> l.elapsed.value == elapsed
  {
    Heading(Capitalize(key), if key == "response" then Some(elapsed) else None)
  }

  /** A heading's text holds no `<` or `>` unless its key or the elapsed
      time does. */
  lemma HeadingLineEscaped(key: string, elapsed: string)
    requires |key| > 0
    requires '<' !in key && '>' !in key && '<' !in elapsed && '>' !in elapsed
    ensures '<' !in Text(HeadingLine(key, elapsed)) && '>' !in Text(HeadingLine(key, elapsed))
  {
    var t := Capitalize(key);
    assert key == [key[0]] + key[1..] && t == [t[0]] + t[1..];
    assert key[0] != '<' && key[0] != '>';
  }

  /** The fixed error message holds no markup. */
  lemma ErrorMessageEscaped()
    ensures '<' !in ErrorMessage && '>' !in ErrorMessage
  {
    var a, b, c, d := "Error: could not ", "get http headers, ", "please try ", "refreshing the page.";
    assert '<' !in a && '>' !in a;
    assert '<' !in b && '>' !in b;
    assert '<' !in c && '>' !in c;
    assert '<' !in d && '>' !in d;
  }
}
