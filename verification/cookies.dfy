/**
 `printCookie`: the browser's cookies are filtered against the tab's host
 name, sorted by lower-cased name, shown one escaped row each, and joined
 raw into the string the copy action puts on the clipboard.
 */
module Cookies {
  import opened Strings
  import opened Escape
  import opened Lines
  import Ordinal
  import Sorting

  datatype Cookie = Cookie(name: string, value: string, domain: string)

  /* ------------------------------------------------------------------ filter */

  /** The filter's test: `hostname.toLowerCase().indexOf(c.domain.toLowerCase()) >= 0`. */
  predicate Matches(c: Cookie, hostname: string) {
    IndexOf(Lower(hostname), Lower(c.domain)) >= 0
  }

  /** A cookie is kept exactly when its lower-cased domain is a contiguous
      substring of the lower-cased host name. */
  lemma MatchesIffSubstring(c: Cookie, hostname: string)
    ensures Matches(c, hostname) <==> Contains(Lower(hostname), Lower(c.domain))
  {
  }

  /** A cookie with an empty domain is shown on every page. */
  lemma EmptyDomainMatches(c: Cookie, hostname: string)
    requires c.domain == ""
    ensures Matches(c, hostname)
  {
    IndexOfEmpty(Lower(hostname));
  }

  /** Every cookie whose domain ends the host name (ignoring ASCII case) is
      kept, so the test is never stricter than a suffix match. */
  lemma DomainSuffixMatches(c: Cookie, hostname: string)
    requires |c.domain| <= |hostname|
    requires Lower(hostname)[|hostname| - |c.domain|..] == Lower(c.domain)
    ensures Matches(c, hostname)
  {
    var hay, needle := Lower(hostname), Lower(c.domain);
    assert |needle| <= |hay| && hay[|hay| - |needle|..] == needle;
    SuffixIsFound(hay, needle);
  }

  /** A cookie whose domain occurs anywhere in the host name, ignoring ASCII
      case, is kept. */
  lemma DomainInsideMatches(c: Cookie, head: string, tail: string, hostname: string)
    requires hostname == head + c.domain + tail
    ensures Matches(c, hostname)
  {
    LowerAppend(head + c.domain, tail);
    LowerAppend(head, c.domain);
    InfixIsFound(Lower(head), Lower(c.domain), Lower(tail));
  }

  /** The test is looser than a suffix match: a domain followed by more text,
      as `example.com` is in `example.com.evil.net`, is kept although it does
      not end the host name. */
  lemma SubstringMatchIsLooserThanSuffix(c: Cookie, tail: string, hostname: string)
    requires hostname == c.domain + tail
    requires |c.domain| > 0 && |tail| > 0
    requires LowerChar(tail[|tail| - 1]) != LowerChar(c.domain[|c.domain| - 1])
    ensures Matches(c, hostname)
    ensures Lower(hostname)[|hostname| - |c.domain|..] != Lower(c.domain)
  {
    assert hostname == "" + c.domain + tail;
    DomainInsideMatches(c, "", tail, hostname);
    var n, m := |hostname|, |c.domain|;
    assert hostname[n - 1] == tail[|tail| - 1];
    assert Lower(hostname)[n - m..][m - 1] == Lower(hostname)[n - 1];
  }

  /** A cookie whose domain is longer than the host name, as a cookie for
      `www.example.com` is on `example.com`, is dropped. */
  lemma LongerDomainDropped(c: Cookie, hostname: string)
    requires |c.domain| > |hostname|
    ensures !Matches(c, hostname)
  {
    LongerIsNotFound(Lower(hostname), Lower(c.domain));
  }

  /** Example: on `mail.example.com`, a cookie for `example.com`
      is kept and one for `www.mail.example.com` is not. */
  lemma FilterExample(kept: Cookie, dropped: Cookie, hostname: string)
    requires hostname == "mail.example.com"
    requires kept.domain == "example.com" && dropped.domain == "www.mail.example.com"
    ensures Matches(kept, hostname) && !Matches(dropped, hostname)
  {
    assert hostname == "mail." + kept.domain + "";
    DomainInsideMatches(kept, "mail.", "", hostname);
    LongerDomainDropped(dropped, hostname);
  }

  /** `Array.prototype.filter`: the cookies `keep` accepts, in their order. */
  function Filter(cs: seq<Cookie>, keep: Cookie -> bool): seq<Cookie> {
    if |cs| == 0 then [] else (if keep(cs[0]) then [cs[0]] else []) + Filter(cs[1..], keep)
  }

  /** The filter keeps exactly the accepted cookies, each as often as it occurs. */
  lemma {:induction false} FilterKeeps(cs: seq<Cookie>, keep: Cookie -> bool)
    ensures |Filter(cs, keep)| <= |cs|
    ensures forall c :: c in Filter(cs, keep) <==> c in cs && keep(c)
    ensures forall c :: multiset(Filter(cs, keep))[c] == if keep(c) then multiset(cs)[c] else 0
  {
    if |cs| > 0 {
      assert cs == [cs[0]] + cs[1..];
      FilterKeeps(cs[1..], keep);
    }
  }

  /** Filtering works cookie by cookie, so it distributes over concatenation. */
  lemma {:induction false} FilterAppend(a: seq<Cookie>, b: seq<Cookie>, keep: Cookie -> bool)
    ensures Filter(a + b, keep) == Filter(a, keep) + Filter(b, keep)
  {
    if |a| == 0 {
      assert a + b == b;
    } else {
      var ab := a + b;
      assert ab[0] == a[0] && ab[1..] == a[1..] + b;
      FilterAppend(a[1..], b, keep);
      var head := if keep(a[0]) then [a[0]] else [];
      assert Filter(ab, keep) == head + (Filter(a[1..], keep) + Filter(b, keep));
      assert Filter(a, keep) == head + Filter(a[1..], keep);
    }
  }

  /** `cookies.filter(...)`: the cookies that match the host name, in their
      store order. */
  function FilterCookies(cs: seq<Cookie>, hostname: string): (r: seq<Cookie>)
    ensures |r| <= |cs|
    ensures forall c :: c in r <==> c in cs && Matches(c, hostname)
    ensures forall c :: multiset(r)[c] == if Matches(c, hostname) then multiset(cs)[c] else 0
  {
    var keep := c => Matches(c, hostname);
    FilterKeeps(cs, keep);
    Filter(cs, keep)
  }

  /** A single cookie is kept exactly when it matches. */
  lemma FilterCookiesSingle(c: Cookie, hostname: string)
    ensures FilterCookies([c], hostname) == if Matches(c, hostname) then [c] else []
  {
    assert [c][1..] == [];
  }

  /** The filter keeps the store order: filtering two runs of cookies one
      after the other is the same as filtering each run and concatenating. */
  lemma FilterCookiesAppend(a: seq<Cookie>, b: seq<Cookie>, hostname: string)
    ensures FilterCookies(a + b, hostname) == FilterCookies(a, hostname) + FilterCookies(b, hostname)
  {
    FilterAppend(a, b, c => Matches(c, hostname));
  }

  /* -------------------------------------------------------------------- sort */

  /** `cmp` behaves as `localeCompare` must for `sort` to be meaningful:
      "not after" is total and transitive. */
  ghost predicate ValidCollation(cmp: (string, string) -> int) {
    && (forall a, b :: cmp(a, b) <= 0 || cmp(b, a) <= 0)
    && (forall a, b, c :: cmp(a, b) <= 0 && cmp(b, c) <= 0 ==> cmp(a, c) <= 0)
  }

  /** Ordinal comparison is one valid collation, so `ValidCollation` can be met. */
  lemma OrdinalIsValidCollation()
    ensures ValidCollation(Ordinal.Compare)
  {
    forall a, b
      ensures Ordinal.Compare(a, b) <= 0 || Ordinal.Compare(b, a) <= 0
    {
      Ordinal.CompareAntisymmetric(a, b);
    }
    forall a, b, c | Ordinal.Compare(a, b) <= 0 && Ordinal.Compare(b, c) <= 0
      ensures Ordinal.Compare(a, c) <= 0
    {
      Ordinal.CompareTransitive(a, b, c);
    }
  }

  /** "Not after" for cookies under `cmp`. */
  function CookieOrder(cmp: (string, string) -> int): (Cookie, Cookie) -> bool {
    (a: Cookie, b: Cookie) => cmp(Lower(a.name), Lower(b.name)) <= 0
  }

  lemma CookieOrderIsTotalPreorder(cmp: (string, string) -> int)
    requires ValidCollation(cmp)
    ensures Sorting.TotalPreorder(CookieOrder(cmp))
  {
    var le := CookieOrder(cmp);
    forall a: Cookie, b: Cookie
      ensures le(a, b) || le(b, a)
    {
      assert cmp(Lower(a.name), Lower(b.name)) <= 0 || cmp(Lower(b.name), Lower(a.name)) <= 0;
    }
    forall a: Cookie, b: Cookie, c: Cookie | le(a, b) && le(b, c)
      ensures le(a, c)
    {
      var x, y, z := Lower(a.name), Lower(b.name), Lower(c.name);
      assert cmp(x, y) <= 0 && cmp(y, z) <= 0;
      assert cmp(x, z) <= 0;
    }
  }

  /** `list.sort(...)` by lower-cased name. */
  function SortCookies(cs: seq<Cookie>, cmp: (string, string) -> int): (r: seq<Cookie>)
    ensures multiset(r) == multiset(cs)
  {
    Sorting.Sort(cs, CookieOrder(cmp))
  }

  /** Under a valid collation the cookies come out ordered by lower-cased
      name, and cookies whose names collate equal keep their order. */
  lemma SortCookiesOrdered(cs: seq<Cookie>, cmp: (string, string) -> int, k: Cookie)
    requires ValidCollation(cmp)
    ensures forall i, j :: 0 <= i < j < |SortCookies(cs, cmp)| ==>
              cmp(Lower(SortCookies(cs, cmp)[i].name), Lower(SortCookies(cs, cmp)[j].name)) <= 0
    ensures Sorting.Ties(SortCookies(cs, cmp), CookieOrder(cmp), k) == Sorting.Ties(cs, CookieOrder(cmp), k)
  {
    CookieOrderIsTotalPreorder(cmp);
    Sorting.SortSorted(cs, CookieOrder(cmp));
    Sorting.SortStable(cs, CookieOrder(cmp), k);
    var r := SortCookies(cs, cmp);
    forall i, j | 0 <= i < j < |r|
      ensures cmp(Lower(r[i].name), Lower(r[j].name)) <= 0
    {
      assert CookieOrder(cmp)(r[i], r[j]);
    }
  }

  /** `SortCookiesOrdered` for every tie class at once, whenever the
      collation is valid. */
  lemma SortCookiesOrderedAll(cs: seq<Cookie>, cmp: (string, string) -> int)
    ensures ValidCollation(cmp) ==>
              forall i, j :: 0 <= i < j < |SortCookies(cs, cmp)| ==>
                cmp(Lower(SortCookies(cs, cmp)[i].name), Lower(SortCookies(cs, cmp)[j].name)) <= 0
    ensures ValidCollation(cmp) ==>
              forall k :: Sorting.Ties(SortCookies(cs, cmp), CookieOrder(cmp), k) == Sorting.Ties(cs, CookieOrder(cmp), k)
  {
    if ValidCollation(cmp) {
      forall k {
        SortCookiesOrdered(cs, cmp, k);
      }
      if |cs| > 0 {
        SortCookiesOrdered(cs, cmp, cs[0]);
      }
    }
  }

  /* ------------------------------------------------------------------ output */

  /** One displayed cookie: escaped name and value. */
  function CookieLine(c: Cookie): (l: Line)
    ensures l.CookieRow?
    ensures '<' !in l.name && '>' !in l.name && '<' !in l.value && '>' !in l.value
  {
    CookieRow(Sanitize(c.name), Sanitize(c.value))
  }

  /** A cookie row's text decodes back under `Unescape` to `name: value`
      whenever neither holds a literal entity. */
  lemma CookieLineReadsBack(c: Cookie)
    requires NoEntity(c.name) && NoEntity(c.value)
    ensures Unescape(Text(CookieLine(c))) == c.name + ": " + c.value
  {
    SanitizedPairReadsBack(c.name, ": ", c.value);
  }

  function CookieLines(cs: seq<Cookie>): (ls: seq<Line>)
    ensures |ls| == |cs|
    ensures forall i :: 0 <= i < |cs| ==> ls[i] == CookieLine(cs[i])
  {
    seq(|cs|, i requires 0 <= i < |cs| => CookieLine(cs[i]))
  }

  /** One cookie in the export string, unescaped: `name = value;`. */
  function ExportPiece(c: Cookie): (p: string)
    ensures c.name <= p && |p| > 0 && p[|p| - 1] == ';'
  {
    c.name + " = " + c.value + ";"
  }

  function ExportPieces(cs: seq<Cookie>): (ps: seq<string>)
    ensures |ps| == |cs|
    ensures forall i :: 0 <= i < |cs| ==> ps[i] == ExportPiece(cs[i])
  {
    seq(|cs|, i requires 0 <= i < |cs| => ExportPiece(cs[i]))
  }

  /** `list.map(...).join(' ')`: the pieces separated by single spaces. */
  function ExportString(cs: seq<Cookie>): (s: string)
    ensures s == "" <==> |cs| == 0
    ensures |cs| > 0 ==> cs[0].name <= s && s[|s| - 1] == ';'
  {
    var ps := ExportPieces(cs);
    if |cs| == 0 then "" else
      JoinEndsWithLast(ps, " ");
      Join(ps, " ")
  }

  lemma {:induction false} JoinEndsWithLast(ps: seq<string>, sep: string)
    requires |ps| > 0
    ensures |Join(ps, sep)| >= |ps[|ps| - 1]|
    ensures Join(ps, sep)[|Join(ps, sep)| - |ps[|ps| - 1]|..] == ps[|ps| - 1]
  {
    if |ps| > 1 {
      JoinEndsWithLast(ps[1..], sep);
      var rest := Join(ps[1..], sep);
      assert Join(ps, sep) == ps[0] + sep + rest;
      assert ps[|ps| - 1] == ps[1..][|ps[1..]| - 1];
    }
  }

  /** Exporting one more cookie appends a space and its piece: the join is
      the running string the popup accumulates. */
  lemma ExportSnoc(cs: seq<Cookie>, c: Cookie)
    requires |cs| > 0
    ensures ExportString(cs + [c]) == ExportString(cs) + " " + ExportPiece(c)
  {
    assert ExportPieces(cs + [c]) == ExportPieces(cs) + [ExportPiece(c)];
    JoinSnoc(ExportPieces(cs), ExportPiece(c), " ");
  }

  /** The export string built with a running accumulator: start empty and
      append each cookie's piece, separated by a space. */
  method BuildExport(cs: seq<Cookie>) returns (s: string)
    ensures s == ExportString(cs)
  {
    s := "";
    var i := 0;
    while i < |cs|
      invariant 0 <= i <= |cs|
      invariant s == ExportString(cs[..i])
    {
      if i == 0 {
        s := ExportPiece(cs[0]);
        assert cs[..1] == [cs[0]];
        ExportSingle(cs[0]);
      } else {
        assert cs[..i + 1] == cs[..i] + [cs[i]];
        ExportSnoc(cs[..i], cs[i]);
        s := s + " " + ExportPiece(cs[i]);
      }
      i := i + 1;
    }
    assert cs[..|cs|] == cs;
  }

  /** A single cookie exports as its own piece. */
  lemma ExportSingle(c: Cookie)
    ensures ExportString([c]) == ExportPiece(c)
  {
    assert ExportPieces([c]) == [ExportPiece(c)];
  }

  /** Example: cookies `a`=1 and `b`=2 export as `a = 1; b = 2;`. */
  lemma ExportExample()
    ensures ExportString([Cookie("a", "1", ""), Cookie("b", "2", "")]) == "a = 1; b = 2;"
  {
    var cs := [Cookie("a", "1", ""), Cookie("b", "2", "")];
    var ps := ExportPieces(cs);
    assert ps[0] == "a = 1;" && ps[1] == "b = 2;";
    assert ps[1..] == ["b = 2;"];
    assert Join(ps, " ") == ps[0] + " " + Join(ps[1..], " ");
  }

  /** Every exported cookie's raw `name = value;` occurs in the export
      string: it is not escaped, unlike the displayed rows. */
  lemma ExportHoldsRawPieces(cs: seq<Cookie>, i: int)
    requires 0 <= i < |cs|
    ensures Contains(ExportString(cs), ExportPiece(cs[i]))
  {
    JoinContainsPiece(ExportPieces(cs), " ", i);
  }

  lemma {:induction false} JoinContainsPiece(ps: seq<string>, sep: string, i: int)
    requires 0 <= i < |ps|
    ensures Contains(Join(ps, sep), ps[i])
  {
    var j := Join(ps, sep);
    if i == 0 {
      assert OccursAt(ps[0], j, 0);
    } else {
      JoinContainsPiece(ps[1..], sep, i - 1);
      var rest := Join(ps[1..], sep);
      var o :| OccursAt(ps[i], rest, o);
      var off := |ps[0]| + |sep|;
      assert j == ps[0] + sep + rest;
      assert j[off + o..off + o + |ps[i]|] == rest[o..o + |ps[i]|];
      assert OccursAt(ps[i], j, off + o);
    }
  }
}
