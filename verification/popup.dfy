/**
 The popup's whole rendering for one tab: the error message when the
 background page has no record for the tab, otherwise the Request section,
 the Response section, the Cookie heading and the cookie rows, together with
 the cookie export string.
 */
module Popup {
  import opened Wrappers
  import opened Lines
  import opened Headers
  import opened Cookies
  import opened Strings
  import Sorting

  /** The background page's record for one tab. */
  datatype Exchange = Exchange(request: Section, response: Section)

  /** The lines written into the results area, in order, and the string the
      copy action puts on the clipboard. */
  datatype Output = Output(lines: seq<Line>, cookieExport: string)

  /** Number of lines a section of `n` headers renders to. */
  function RenderedCount(n: nat): nat {
    if n == 0 then 0 else n + 1
  }

  /** The cookies that are shown and exported, in display order. */
  function ShownCookies(cookies: seq<Cookie>, hostname: string, cmp: (string, string) -> int): (r: seq<Cookie>)
    ensures forall c :: c in r <==> c in cookies && Matches(c, hostname)
    ensures forall c :: multiset(r)[c] == if Matches(c, hostname) then multiset(cookies)[c] else 0
    ensures ValidCollation(cmp) ==>
              forall i, j :: 0 <= i < j < |r| ==> cmp(Lower(r[i].name), Lower(r[j].name)) <= 0
    ensures ValidCollation(cmp) ==>
              forall k :: Sorting.Ties(r, CookieOrder(cmp), k) == Sorting.Ties(FilterCookies(cookies, hostname), CookieOrder(cmp), k)
  {
    var kept := FilterCookies(cookies, hostname);
    SortCookiesOrderedAll(kept, cmp);
    var r := SortCookies(kept, cmp);
    assert forall c :: c in r <==> c in multiset(kept);
    r
  }

  /** The results area in the order `printResults` writes it: a heading and
      its section, twice, then the cookie heading and the cookie rows. */
  function Arrange(hq: Line, request: seq<Line>, hs: Line, response: seq<Line>, hc: Line,
                   cookieRows: seq<Line>): (ls: seq<Line>)
    ensures |ls| == 3 + |request| + |response| + |cookieRows|
    ensures ls[0] == hq && ls[1 + |request|] == hs && ls[2 + |request| + |response|] == hc
    ensures ls[1..1 + |request|] == request
    ensures ls[2 + |request|..2 + |request| + |response|] == response
    ensures ls[3 + |request| + |response|..] == cookieRows
  {
    [hq] + request + [hs] + response + [hc] + cookieRows
  }

  /** Everything the popup renders for a tab. `record` is the background
      page's entry for the tab, `elapsed` the response time as the popup
      formats it, `cookies` the whole cookie store, `hostname` the host of the
      tab's URL, and `cmp` the collation used to order cookie names. */
  function Present(record: Option<Exchange>, elapsed: string, cookies: seq<Cookie>,
                   hostname: string, cmp: (string, string) -> int): (out: Output)
    ensures record.None? ==> out == Output([ErrorText(ErrorMessage)], "")
    ensures record.Some? ==> |out.lines| >= 3 && out.lines[0] == Heading("Request", None)
  {
    SectionHeadings(elapsed);
    match record
    case None => Output([ErrorText(ErrorMessage)], "")
    case Some(x) =>
      var shown := ShownCookies(cookies, hostname, cmp);
      Output(Arrange(HeadingLine("request", elapsed), SectionLines(SortedSection(x.request)),
                     HeadingLine("response", elapsed), SectionLines(SortedSection(x.response)),
                     HeadingLine("cookie", elapsed), CookieLines(shown)),
             ExportString(shown))
  }

  /** With no record for the tab the popup shows the fixed error message and
      nothing else, and there is nothing to copy. */
  lemma MissingRecordShowsOnlyError(elapsed: string, cookies: seq<Cookie>, hostname: string,
                                    cmp: (string, string) -> int)
    ensures Present(None, elapsed, cookies, hostname, cmp).lines == [ErrorText(ErrorMessage)]
    ensures Present(None, elapsed, cookies, hostname, cmp).cookieExport == ""
  {
  }

  /** The lines at positions `a`, `b` and `c` are headings and no other line is. */
  ghost predicate HeadingsExactlyAt(ls: seq<Line>, a: int, b: int, c: int) {
    forall i :: 0 <= i < |ls| ==> (ls[i].Heading? <==> i == a || i == b || i == c)
  }

  ghost predicate NoErrorLine(ls: seq<Line>) {
    forall i :: 0 <= i < |ls| ==> !ls[i].ErrorText?
  }

  /** Headings appear only at the three section starts, and there is no error
      line, whenever the pieces themselves hold neither. */
  lemma ArrangeHeadings(hq: Line, request: seq<Line>, hs: Line, response: seq<Line>, hc: Line,
                        cookieRows: seq<Line>)
    requires hq.Heading? && hs.Heading? && hc.Heading?
    requires forall l :: l in request + response + cookieRows ==> !l.Heading? && !l.ErrorText?
    ensures var ls := Arrange(hq, request, hs, response, hc, cookieRows);
            HeadingsExactlyAt(ls, 0, 1 + |request|, 2 + |request| + |response|) && NoErrorLine(ls)
  {
    var ls := Arrange(hq, request, hs, response, hc, cookieRows);
    var nq, ns := |request|, |response|;
    forall i | 0 <= i < |ls|
      ensures ls[i].Heading? <==> i == 0 || i == 1 + nq || i == 2 + nq + ns
      ensures !ls[i].ErrorText?
    {
      if 1 <= i < 1 + nq {
        assert ls[i] == ls[1..1 + nq][i - 1] == request[i - 1];
        assert request[i - 1] in request + response + cookieRows;
      } else if 2 + nq <= i < 2 + nq + ns {
        assert ls[i] == ls[2 + nq..2 + nq + ns][i - 2 - nq] == response[i - 2 - nq];
        assert response[i - 2 - nq] in request + response + cookieRows;
      } else if 3 + nq + ns <= i {
        assert ls[i] == ls[3 + nq + ns..][i - 3 - nq - ns] == cookieRows[i - 3 - nq - ns];
        assert cookieRows[i - 3 - nq - ns] in request + response + cookieRows;
      }
    }
  }

  /** What `Arrange` writes is exactly its headings and its pieces' lines. */
  lemma ArrangeMembers(hq: Line, request: seq<Line>, hs: Line, response: seq<Line>, hc: Line,
                       cookieRows: seq<Line>, l: Line)
    ensures l in Arrange(hq, request, hs, response, hc, cookieRows) <==>
              l == hq || l == hs || l == hc || l in request || l in response || l in cookieRows
  {
    assert Arrange(hq, request, hs, response, hc, cookieRows)
        == [hq] + request + [hs] + response + [hc] + cookieRows;
  }

  lemma PresentArranges(x: Exchange, elapsed: string, cookies: seq<Cookie>, hostname: string,
                        cmp: (string, string) -> int)
    ensures Present(Some(x), elapsed, cookies, hostname, cmp).lines ==
              Arrange(HeadingLine("request", elapsed), SectionLines(SortedSection(x.request)),
                      HeadingLine("response", elapsed), SectionLines(SortedSection(x.response)),
                      HeadingLine("cookie", elapsed), CookieLines(ShownCookies(cookies, hostname, cmp)))
  {
  }

  /** Section and cookie lines are neither headings nor errors. */
  lemma BodyKinds(request: Section, response: Section, shown: seq<Cookie>)
    ensures forall l :: l in SectionLines(request) + SectionLines(response) + CookieLines(shown) ==>
              !l.Heading? && !l.ErrorText?
  {
    var rq, rs, cl := SectionLines(request), SectionLines(response), CookieLines(shown);
    forall l: Line | l in rq + rs + cl
      ensures !l.Heading? && !l.ErrorText?
    {
      if l in rq {
        SectionLinesKinds(request, l);
      } else if l in rs {
        SectionLinesKinds(response, l);
      } else {
        var i :| 0 <= i < |cl| && cl[i] == l;
      }
    }
  }

  /** The text of section and cookie lines is escaped. */
  lemma BodyLines(request: Section, response: Section, shown: seq<Cookie>)
    ensures forall l :: l in SectionLines(request) + SectionLines(response) + CookieLines(shown) ==>
              '<' !in Text(l) && '>' !in Text(l)
  {
    var rq, rs, cl := SectionLines(request), SectionLines(response), CookieLines(shown);
    forall l: Line | l in rq + rs + cl
      ensures '<' !in Text(l) && '>' !in Text(l)
    {
      if l in rq {
        SectionLineEscaped(request, l);
      } else if l in rs {
        SectionLineEscaped(response, l);
      } else {
        var i :| 0 <= i < |cl| && cl[i] == l;
        RowTextEscaped(l);
      }
    }
  }

  lemma SectionLineEscaped(sec: Section, l: Line)
    requires l in SectionLines(sec)
    ensures '<' !in Text(l) && '>' !in Text(l)
  {
    var ls := SectionLines(sec);
    var i :| 0 <= i < |ls| && ls[i] == l;
    if i == 0 {
      assert l == Status(StatusText(sec));
    } else {
      var h := sec.headers[i - 1];
      assert l == HeaderLine(h);
      RowTextEscaped(l);
    }
  }

  /** With a record, the output is the Request heading and section, the
      Response heading (with the elapsed time) and section, the Cookie
      heading, then one row per shown cookie; the Cookie heading is there
      even when no cookie matches. */
  lemma CapturedRecordLayout(x: Exchange, elapsed: string, cookies: seq<Cookie>, hostname: string,
                             cmp: (string, string) -> int)
    ensures var out := Present(Some(x), elapsed, cookies, hostname, cmp);
            var rq := SectionLines(SortedSection(x.request));
            var rs := SectionLines(SortedSection(x.response));
            var cl := CookieLines(ShownCookies(cookies, hostname, cmp));
            var nq, ns := |rq|, |rs|;
            && nq == RenderedCount(|x.request.headers|)
            && ns == RenderedCount(|x.response.headers|)
            && |cl| == |ShownCookies(cookies, hostname, cmp)|
            && |out.lines| == 3 + nq + ns + |cl|
            && out.lines[0] == Heading("Request", None)
            && out.lines[1 + nq] == Heading("Response", Some(elapsed))
            && out.lines[2 + nq + ns] == Heading("Cookie", None)
            && out.lines[1..1 + nq] == rq
            && out.lines[2 + nq..2 + nq + ns] == rs
            && out.lines[3 + nq + ns..] == cl
  {
    PresentArranges(x, elapsed, cookies, hostname, cmp);
    SectionHeadings(elapsed);
  }

  /** With a record, headings appear exactly at the three section starts and
      no error line appears. */
  lemma CapturedRecordHeadings(x: Exchange, elapsed: string, cookies: seq<Cookie>, hostname: string,
                               cmp: (string, string) -> int)
    ensures var out := Present(Some(x), elapsed, cookies, hostname, cmp);
            var nq := RenderedCount(|x.request.headers|);
            var ns := RenderedCount(|x.response.headers|);
            HeadingsExactlyAt(out.lines, 0, 1 + nq, 2 + nq + ns) && NoErrorLine(out.lines)
  {
    PresentArranges(x, elapsed, cookies, hostname, cmp);
    RenderedHeadings(SortedSection(x.request), SortedSection(x.response), elapsed,
                     ShownCookies(cookies, hostname, cmp));
  }

  /** `CapturedRecordHeadings` for any two sections and any cookies. */
  lemma RenderedHeadings(request: Section, response: Section, elapsed: string, shown: seq<Cookie>)
    ensures var ls := Arrange(HeadingLine("request", elapsed), SectionLines(request),
                              HeadingLine("response", elapsed), SectionLines(response),
                              HeadingLine("cookie", elapsed), CookieLines(shown));
            var nq := RenderedCount(|request.headers|);
            var ns := RenderedCount(|response.headers|);
            HeadingsExactlyAt(ls, 0, 1 + nq, 2 + nq + ns) && NoErrorLine(ls)
  {
    BodyKinds(request, response, shown);
    ArrangeHeadings(HeadingLine("request", elapsed), SectionLines(request),
                    HeadingLine("response", elapsed), SectionLines(response),
                    HeadingLine("cookie", elapsed), CookieLines(shown));
  }

  /** The cookie rows and the export string describe the same cookies in the
      same order: the output ends with one row per shown cookie, the export
      string joins the same cookies' raw `name = value;` pieces and holds each
      of them, and it is empty exactly when no cookie matches the host name. */
  lemma CookieRowsMatchExport(x: Exchange, elapsed: string, cookies: seq<Cookie>, hostname: string,
                              cmp: (string, string) -> int)
    ensures var out := Present(Some(x), elapsed, cookies, hostname, cmp);
            var shown := ShownCookies(cookies, hostname, cmp);
            && |shown| <= |out.lines|
            && out.lines[|out.lines| - |shown|..] == CookieLines(shown)
            && out.cookieExport == Join(ExportPieces(shown), " ")
            && (forall i :: 0 <= i < |shown| ==>
                  Contains(out.cookieExport, shown[i].name + " = " + shown[i].value + ";"))
            && (out.cookieExport == "" <==> forall c :: c in cookies ==> !Matches(c, hostname))
  {
    var shown := ShownCookies(cookies, hostname, cmp);
    var out := Present(Some(x), elapsed, cookies, hostname, cmp);
    PresentParts(x, elapsed, cookies, hostname, cmp);
    ArrangeEndsWithRows(HeadingLine("request", elapsed), SectionLines(SortedSection(x.request)),
                        HeadingLine("response", elapsed), SectionLines(SortedSection(x.response)),
                        HeadingLine("cookie", elapsed), CookieLines(shown));
    OutputMatchesExport(out, cookies, hostname, cmp);
  }

  /** `CookieRowsMatchExport` for any output that ends with the shown
      cookies' rows and carries their export string. */
  lemma OutputMatchesExport(out: Output, cookies: seq<Cookie>, hostname: string, cmp: (string, string) -> int)
    requires var shown := ShownCookies(cookies, hostname, cmp);
             && |shown| <= |out.lines|
             && out.lines[|out.lines| - |shown|..] == CookieLines(shown)
             && out.cookieExport == ExportString(shown)
    ensures var shown := ShownCookies(cookies, hostname, cmp);
            && |shown| <= |out.lines|
            && out.lines[|out.lines| - |shown|..] == CookieLines(shown)
            && out.cookieExport == Join(ExportPieces(shown), " ")
            && (forall i :: 0 <= i < |shown| ==>
                  Contains(out.cookieExport, shown[i].name + " = " + shown[i].value + ";"))
            && (out.cookieExport == "" <==> forall c :: c in cookies ==> !Matches(c, hostname))
  {
    var shown := ShownCookies(cookies, hostname, cmp);
    ExportIsJoin(shown);
    ExportHoldsEveryPiece(shown);
    NothingShownIffNoMatch(cookies, hostname, cmp);
  }

  /** With a record, the lines are the arranged parts and the export string
      is that of the shown cookies. */
  lemma PresentParts(x: Exchange, elapsed: string, cookies: seq<Cookie>, hostname: string,
                     cmp: (string, string) -> int)
    ensures var out := Present(Some(x), elapsed, cookies, hostname, cmp);
            var shown := ShownCookies(cookies, hostname, cmp);
            && out.lines == Arrange(HeadingLine("request", elapsed), SectionLines(SortedSection(x.request)),
                                    HeadingLine("response", elapsed), SectionLines(SortedSection(x.response)),
                                    HeadingLine("cookie", elapsed), CookieLines(shown))
            && out.cookieExport == ExportString(shown)
  {
  }

  /** The arranged output ends with the cookie rows. */
  lemma ArrangeEndsWithRows(hq: Line, request: seq<Line>, hs: Line, response: seq<Line>, hc: Line,
                            cookieRows: seq<Line>)
    ensures var ls := Arrange(hq, request, hs, response, hc, cookieRows);
            |cookieRows| <= |ls| && ls[|ls| - |cookieRows|..] == cookieRows
  {
  }

  /** The export string is the join of the pieces, for any number of cookies. */
  lemma ExportIsJoin(shown: seq<Cookie>)
    ensures ExportString(shown) == Join(ExportPieces(shown), " ")
  {
  }

  lemma ExportHoldsEveryPiece(shown: seq<Cookie>)
    ensures forall i :: 0 <= i < |shown| ==>
              Contains(ExportString(shown), shown[i].name + " = " + shown[i].value + ";")
  {
    forall i | 0 <= i < |shown|
      ensures Contains(ExportString(shown), shown[i].name + " = " + shown[i].value + ";")
    {
      ExportHoldsRawPieces(shown, i);
    }
  }

  /** No cookie is shown exactly when no cookie in the store matches the host. */
  lemma NothingShownIffNoMatch(cookies: seq<Cookie>, hostname: string, cmp: (string, string) -> int)
    ensures |ShownCookies(cookies, hostname, cmp)| == 0 <==> forall c :: c in cookies ==> !Matches(c, hostname)
  {
    var shown := ShownCookies(cookies, hostname, cmp);
    if |shown| > 0 {
      assert shown[0] in shown;
    }
  }

  /** Nothing the popup writes can open an HTML tag: apart from the elapsed
      time, which is computed and not captured, no line's text holds `<` or
      `>`. */
  lemma PresentEscapesMarkup(record: Option<Exchange>, elapsed: string, cookies: seq<Cookie>,
                             hostname: string, cmp: (string, string) -> int)
    requires '<' !in elapsed && '>' !in elapsed
    ensures forall l :: l in Present(record, elapsed, cookies, hostname, cmp).lines ==>
              '<' !in Text(l) && '>' !in Text(l)
  {
    ErrorMessageEscaped();
    if record.Some? {
      var x := record.value;
      var shown := ShownCookies(cookies, hostname, cmp);
      var rq := SectionLines(SortedSection(x.request));
      var rs := SectionLines(SortedSection(x.response));
      var cl := CookieLines(shown);
      PresentArranges(x, elapsed, cookies, hostname, cmp);
      HeadingsEscaped(elapsed);
      BodyLines(SortedSection(x.request), SortedSection(x.response), shown);
      ArrangedEscaped(HeadingLine("request", elapsed), rq, HeadingLine("response", elapsed), rs,
                      HeadingLine("cookie", elapsed), cl);
    }
  }

  /** The text of every line is the HTML fragment the popup writes for it,
      with its tags removed: no captured text can open a tag of its own. */
  lemma PresentTextIsMarkupText(record: Option<Exchange>, elapsed: string, cookies: seq<Cookie>,
                                hostname: string, cmp: (string, string) -> int)
    requires '<' !in elapsed && '>' !in elapsed
    ensures forall l :: l in Present(record, elapsed, cookies, hostname, cmp).lines ==>
              StripTags(Markup(l)) == Text(l)
  {
    PresentEscapesMarkup(record, elapsed, cookies, hostname, cmp);
    forall l | l in Present(record, elapsed, cookies, hostname, cmp).lines
      ensures StripTags(Markup(l)) == Text(l)
    {
      PlainWhenTextIs(l);
    }
  }

  lemma HeadingsEscaped(elapsed: string)
    requires '<' !in elapsed && '>' !in elapsed
    ensures forall l ::
              l in [HeadingLine("request", elapsed), HeadingLine("response", elapsed), HeadingLine("cookie", elapsed)]
              ==> '<' !in Text(l) && '>' !in Text(l)
  {
    HeadingLineEscaped("request", elapsed);
    HeadingLineEscaped("response", elapsed);
    HeadingLineEscaped("cookie", elapsed);
  }

  lemma ArrangedEscaped(hq: Line, request: seq<Line>, hs: Line, response: seq<Line>, hc: Line,
                        cookieRows: seq<Line>)
    requires forall l :: l in [hq, hs, hc] ==> '<' !in Text(l) && '>' !in Text(l)
    requires forall l :: l in request + response + cookieRows ==> '<' !in Text(l) && '>' !in Text(l)
    ensures forall l :: l in Arrange(hq, request, hs, response, hc, cookieRows) ==>
              '<' !in Text(l) && '>' !in Text(l)
  {
    forall l | l in Arrange(hq, request, hs, response, hc, cookieRows)
      ensures '<' !in Text(l) && '>' !in Text(l)
    {
      ArrangeMembers(hq, request, hs, response, hc, cookieRows, l);
      if l == hq || l == hs || l == hc {
        assert l in [hq, hs, hc];
      } else {
        assert l in request + response + cookieRows;
      }
    }
  }

  /** Every captured request and response header is rendered as a row. */
  lemma EveryHeaderIsShown(x: Exchange, elapsed: string, cookies: seq<Cookie>, hostname: string,
                           cmp: (string, string) -> int, h: Header)
    requires h in x.request.headers || h in x.response.headers
    ensures HeaderLine(h) in Present(Some(x), elapsed, cookies, hostname, cmp).lines
  {
    var shown := ShownCookies(cookies, hostname, cmp);
    var rq := SectionLines(SortedSection(x.request));
    var rs := SectionLines(SortedSection(x.response));
    var cl := CookieLines(shown);
    var hq, hs, hc := HeadingLine("request", elapsed), HeadingLine("response", elapsed), HeadingLine("cookie", elapsed);
    PresentArranges(x, elapsed, cookies, hostname, cmp);
    ArrangeMembers(hq, rq, hs, rs, hc, cl, HeaderLine(h));
    if h in x.request.headers {
      HeaderIsRendered(x.request, h);
    } else {
      HeaderIsRendered(x.response, h);
    }
  }

  /** A header of a section gets a row once the section is sorted. */
  lemma HeaderIsRendered(sec: Section, h: Header)
    requires h in sec.headers
    ensures HeaderLine(h) in SectionLines(SortedSection(sec))
  {
    var sorted := SortedSection(sec);
    assert h in multiset(sec.headers);
    assert h in multiset(sorted.headers);
    RowOfMember(sorted, h);
  }

  /** Every header of a section has its row among the section's lines. */
  lemma RowOfMember(sec: Section, h: Header)
    requires h in sec.headers
    ensures HeaderLine(h) in SectionLines(sec)
  {
    var i :| 0 <= i < |sec.headers| && sec.headers[i] == h;
    assert SectionLines(sec)[i + 1] == HeaderLine(h);
  }
}
