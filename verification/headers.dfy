/**
 The request and response sections: headers sorted by name with the
 three-way ordinal comparator, a status line above the first header, and
 one escaped row per header (`printStatus`, `printHeader`, `printKeys`).
 */
module Headers {
  import opened Wrappers
  import opened Escape
  import opened Ordinal
  import opened Lines
  import Sorting

  datatype Header = Header(name: string, value: string)

  /** One half of a captured exchange. A response carries a `statusLine`;
      a request has only its method and URL. */
  datatype Section = Section(statusLine: Option<string>, httpMethod: string, url: string, headers: seq<Header>)

  /* ----------------------------------------------------------------- sorting */

  /** `a` is not after `b`: the header comparator does not answer 1. */
  predicate NotAfter(a: Header, b: Header) {
    Compare(a.name, b.name) <= 0
  }

  lemma NotAfterIsTotalPreorder()
    ensures Sorting.TotalPreorder(NotAfter)
  {
    forall a: Header, b: Header
      ensures NotAfter(a, b) || NotAfter(b, a)
    {
      CompareAntisymmetric(a.name, b.name);
    }
    forall a: Header, b: Header, c: Header | NotAfter(a, b) && NotAfter(b, c)
      ensures NotAfter(a, c)
    {
      CompareTransitive(a.name, b.name, c.name);
    }
  }

  /** The in-place `sort` of a section's headers. */
  function SortHeaders(hs: seq<Header>): (r: seq<Header>)
    ensures |r| == |hs| && multiset(r) == multiset(hs)
    ensures forall i, j :: 0 <= i < j < |r| ==> Compare(r[i].name, r[j].name) <= 0
  {
    NotAfterIsTotalPreorder();
    Sorting.SortSorted(hs, NotAfter);
    Sorting.Sort(hs, NotAfter)
  }

  /** The headers of `hs` called `n`, in their order in `hs`. */
  function Named(hs: seq<Header>, n: string): seq<Header> {
    if |hs| == 0 then []
    else (if hs[0].name == n then [hs[0]] else []) + Named(hs[1..], n)
  }

  lemma {:induction false} TiesAreNamed(hs: seq<Header>, n: string, v: string)
    ensures Sorting.Ties(hs, NotAfter, Header(n, v)) == Named(hs, n)
  {
    if |hs| > 0 {
      CompareZeroIffEqual(hs[0].name, n);
      CompareAntisymmetric(hs[0].name, n);
      TiesAreNamed(hs[1..], n, v);
    }
  }

  /** Sorting is stable: headers that share a name, such as repeated
      `Set-Cookie` headers, keep their captured relative order. */
  lemma SortHeadersStable(hs: seq<Header>, n: string)
    ensures Named(SortHeaders(hs), n) == Named(hs, n)
  {
    NotAfterIsTotalPreorder();
    Sorting.SortStable(hs, NotAfter, Header(n, ""));
    TiesAreNamed(hs, n, "");
    TiesAreNamed(SortHeaders(hs), n, "");
  }

  /** Example: `b`, `a`(1), `a`(0) sort to `a`(1), `a`(0), `b`. */
  lemma SortHeadersExample()
    ensures SortHeaders([Header("b", "2"), Header("a", "1"), Header("a", "0")])
         == [Header("a", "1"), Header("a", "0"), Header("b", "2")]
  {
    var b2, a1, a0 := Header("b", "2"), Header("a", "1"), Header("a", "0");
    var hs := [b2, a1, a0];
    assert Compare("a", "a") == 0 by { LessIrreflexive("a"); }
    assert Compare("b", "a") == 1 by { assert Less("a", "b"); }
    assert hs[1..] == [a1, a0] && [a1, a0][1..] == [a0] && [a0][1..] == [];
    assert Sorting.Sort([], NotAfter) == [];
    assert Sorting.Insert(a0, [], NotAfter) == [a0];
    assert Sorting.Sort([a0], NotAfter) == [a0];
    assert NotAfter(a1, a0) && !NotAfter(b2, a1) && !NotAfter(b2, a0);
    assert Sorting.Insert(a1, [a0], NotAfter) == [a1, a0];
    assert Sorting.Sort([a1, a0], NotAfter) == [a1, a0];
    assert Sorting.Insert(b2, [], NotAfter) == [b2];
    assert Sorting.Insert(b2, [a0], NotAfter) == [a0] + [b2];
    assert Sorting.Insert(b2, [a1, a0], NotAfter) == [a1, a0, b2];
  }

  /* --------------------------------------------------------------- rendering */

  /** `printStatus`: the status line when it is present and non-empty
      (JavaScript truthiness), otherwise method and URL joined by a space;
      every captured part escaped. */
  function StatusText(sec: Section): (t: string)
    ensures '<' !in t && '>' !in t
  {
    if sec.statusLine.Some? && sec.statusLine.value != "" then Sanitize(sec.statusLine.value)
    else Sanitize(sec.httpMethod) + " " + Sanitize(sec.url)
  }

  /** `printHeader`: escaped name and value. */
  function HeaderLine(h: Header): (l: Line)
    ensures l.HeaderRow?
    ensures '<' !in l.name && '>' !in l.name && '<' !in l.value && '>' !in l.value
  {
    HeaderRow(Sanitize(h.name), Sanitize(h.value))
  }

  /** The status text decodes back under `Unescape` to the captured status
      line, or to the method and URL, whenever the parts that branch reads
      hold no literal entity. */
  lemma StatusTextReadsBack(sec: Section)
    ensures sec.statusLine.Some? && sec.statusLine.value != "" && NoEntity(sec.statusLine.value) ==>
              Unescape(StatusText(sec)) == sec.statusLine.value
    ensures (sec.statusLine.None? || sec.statusLine.value == "") && NoEntity(sec.httpMethod) && NoEntity(sec.url) ==>
              Unescape(StatusText(sec)) == sec.httpMethod + " " + sec.url
  {
    if sec.statusLine.Some? && sec.statusLine.value != "" {
      if NoEntity(sec.statusLine.value) {
        SanitizeRoundTrip(sec.statusLine.value);
      }
    } else if NoEntity(sec.httpMethod) && NoEntity(sec.url) {
      SanitizedPairReadsBack(sec.httpMethod, " ", sec.url);
    }
  }

  /** A header row's text decodes back under `Unescape` to `name: value`
      whenever neither holds a literal entity. */
  lemma HeaderLineReadsBack(h: Header)
    requires NoEntity(h.name) && NoEntity(h.value)
    ensures Unescape(Text(HeaderLine(h))) == h.name + ": " + h.value
  {
    SanitizedPairReadsBack(h.name, ": ", h.value);
  }

  /** One row per header, in order. */
  function HeaderRows(hs: seq<Header>): (ls: seq<Line>)
    ensures |ls| == |hs|
    ensures forall i :: 0 <= i < |hs| ==> ls[i] == HeaderLine(hs[i])
  {
    seq(|hs|, i requires 0 <= i < |hs| => HeaderLine(hs[i]))
  }

  /** One more header adds one more row at the end. */
  lemma HeaderRowsSnoc(hs: seq<Header>, h: Header)
    ensures HeaderRows(hs + [h]) == HeaderRows(hs) + [HeaderLine(h)]
  {
    assert forall k :: 0 <= k < |hs| ==> (hs + [h])[k] == hs[k];
  }

  /** The lines `printKeys` emits for a section: nothing for a section with no
      headers, otherwise the status line followed by one row per header, in
      order. */
  function SectionLines(sec: Section): (ls: seq<Line>)
    ensures |sec.headers| == 0 ==> ls == []
    ensures |sec.headers| > 0 ==> |ls| == |sec.headers| + 1 && ls[0] == Status(StatusText(sec))
    ensures forall i :: 0 <= i < |sec.headers| ==> ls[i + 1] == HeaderLine(sec.headers[i])
  {
    if |sec.headers| == 0 then []
    else [Status(StatusText(sec))] + HeaderRows(sec.headers)
  }

  /** A section holds one status line, first, and header rows after it. */
  lemma SectionLinesKinds(sec: Section, l: Line)
    requires l in SectionLines(sec)
    ensures l.Status? || l.HeaderRow?
    ensures l.Status? ==> l == SectionLines(sec)[0]
  {
    var ls := SectionLines(sec);
    var i :| 0 <= i < |ls| && ls[i] == l;
    if i > 0 {
      assert ls[(i - 1) + 1] == HeaderLine(sec.headers[i - 1]);
    }
  }

  /** `printKeys`: the rows of a section, with its status line on top. */
  method PrintKeys(sec: Section) returns (out: seq<Line>)
    ensures out == SectionLines(sec)
  {
    out := PrintRows(Status(StatusText(sec)), sec.headers);
  }

  /** The loop of `printKeys` as written: it counts through the headers and
      prints `status` when it reaches the first one. */
  method PrintRows(status: Line, hs: seq<Header>) returns (out: seq<Line>)
    ensures |hs| == 0 ==> out == []
    ensures |hs| > 0 ==> out == [status] + HeaderRows(hs)
  {
    out := [];
    var i := 0;
    while i < |hs|
      invariant 0 <= i <= |hs|
      invariant i == 0 ==> out == []
      invariant i > 0 ==> out == [status] + HeaderRows(hs[..i])
    {
      if i == 0 {
        out := out + [status];
      }
      assert hs[..i + 1] == hs[..i] + [hs[i]];
      HeaderRowsSnoc(hs[..i], hs[i]);
      out := out + [HeaderLine(hs[i])];
      i := i + 1;
    }
    assert hs[..|hs|] == hs;
  }

  /** `SectionLines` is the only sequence with its shape. */
  lemma IsSectionLines(sec: Section, out: seq<Line>)
    requires |sec.headers| == 0 ==> out == []
    requires |sec.headers| > 0 ==> |out| == |sec.headers| + 1 && out[0] == Status(StatusText(sec))
    requires forall j :: 0 <= j < |sec.headers| ==> out[j + 1] == HeaderLine(sec.headers[j])
    ensures out == SectionLines(sec)
  {
    var spec := SectionLines(sec);
    if |sec.headers| > 0 {
      assert |out| == |spec|;
      forall k | 0 < k < |out|
        ensures out[k] == spec[k]
      {
        var j := k - 1;
        assert out[j + 1] == HeaderLine(sec.headers[j]);
        assert spec[j + 1] == HeaderLine(sec.headers[j]);
      }
      assert out[0] == spec[0];
    }
  }


  /** A section as `printResults` renders it: headers sorted first. */
  function SortedSection(sec: Section): (s: Section)
    ensures s.statusLine == sec.statusLine && s.httpMethod == sec.httpMethod && s.url == sec.url
    ensures |s.headers| == |sec.headers| && multiset(s.headers) == multiset(sec.headers)
    ensures forall i, j :: 0 <= i < j < |s.headers| ==> Compare(s.headers[i].name, s.headers[j].name) <= 0
    ensures forall n :: Named(s.headers, n) == Named(sec.headers, n)
  {
    SortHeadersStableAll(sec.headers);
    sec.(headers := SortHeaders(sec.headers))
  }

  /** `SortHeadersStable` for every name at once. */
  lemma SortHeadersStableAll(hs: seq<Header>)
    ensures forall n :: Named(SortHeaders(hs), n) == Named(hs, n)
  {
    forall n {
      SortHeadersStable(hs, n);
    }
  }
}
