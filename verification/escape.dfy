/**
 The popup's `sanitize`: before any captured text is written into the page,
 `<` is replaced by `&lt;` and then `>` by `&gt;`, each globally.
 */
module Escape {
  import opened Strings

  const LtEntity: string := "&lt;"
  const GtEntity: string := "&gt;"

  /** Two global replacements in the order the popup performs them. */
  function Sanitize(data: string): (r: string)
    ensures '<' !in r && '>' !in r
    ensures '<' !in data && '>' !in data ==> r == data
    ensures forall d :: d in data && d != '<' && d != '>' ==> d in r
  {
    ReplaceAll(ReplaceAll(data, '<', LtEntity), '>', GtEntity)
  }

  /** Reference definition, one character at a time. */
  function EscapeChar(c: char): string {
    if c == '<' then LtEntity else if c == '>' then GtEntity else [c]
  }

  function Escaped(s: string): string {
    if |s| == 0 then [] else EscapeChar(s[0]) + Escaped(s[1..])
  }

  /** The two-pass replacement equals the character-wise escaping: every `<`
      becomes `&lt;`, every `>` becomes `&gt;`, and every other character
      is kept, in order. */
  lemma {:induction false} SanitizeIsEscaped(s: string)
    ensures Sanitize(s) == Escaped(s)
  {
    if |s| > 0 {
      var head, tail := [s[0]], s[1..];
      assert s == head + tail;
      ReplaceAllAppend(head, tail, '<', LtEntity);
      ReplaceAllAppend(ReplaceAll(head, '<', LtEntity), ReplaceAll(tail, '<', LtEntity), '>', GtEntity);
      SanitizeOneChar(s[0]);
      SanitizeIsEscaped(tail);
    }
  }

  /** Sanitizing one character escapes it. */
  lemma SanitizeOneChar(c: char)
    ensures Sanitize([c]) == EscapeChar(c)
  {
    var once := ReplaceAll([c], '<', LtEntity);
    if c == '<' {
      assert once == LtEntity + ReplaceAll([], '<', LtEntity);
      assert ReplaceAll(once, '>', GtEntity) == once;
    } else if c == '>' {
      assert once == [c] + ReplaceAll([], '<', LtEntity);
      assert ReplaceAll(once, '>', GtEntity) == GtEntity + ReplaceAll([], '>', GtEntity);
    } else {
      assert once == [c] + ReplaceAll([], '<', LtEntity);
      assert ReplaceAll(once, '>', GtEntity) == [c] + ReplaceAll([], '>', GtEntity);
    }
  }

  /** Sanitizing an already sanitized string changes nothing. */
  lemma SanitizeIdempotent(s: string)
    ensures Sanitize(Sanitize(s)) == Sanitize(s)
  {
  }

  /** Decoding the two entities `sanitize` produces back to the characters
      they stand for; every other character, `&` included, is kept. */
  function Unescape(s: string): string {
    if |s| >= 4 && s[..4] == LtEntity then "<" + Unescape(s[4..])
    else if |s| >= 4 && s[..4] == GtEntity then ">" + Unescape(s[4..])
    else if |s| == 0 then []
    else [s[0]] + Unescape(s[1..])
  }

  /** `s` holds no literal `&lt;` or `&gt;`: decoding could not tell such
      text from an escaped bracket. */
  ghost predicate NoEntity(s: string) {
    forall i :: !EntityAt(s, i)
  }

  /** `&lt;` or `&gt;` starts at index `i` of `s`. */
  predicate EntityAt(s: string, i: int) {
    0 <= i && i + 4 <= |s| && (s[i..i + 4] == LtEntity || s[i..i + 4] == GtEntity)
  }

  /** `t` would complete an entity if it followed a `&`. */
  predicate ClosesEntity(t: string) {
    |t| >= 3 && (t[..3] == LtEntity[1..] || t[..3] == GtEntity[1..])
  }

  /** A character that can follow the `&` inside an entity. */
  predicate EntityTail(c: char) {
    c == 'l' || c == 'g' || c == 't' || c == ';'
  }

  /** Text without `&` holds no entity. */
  lemma AmpFreeHasNoEntity(s: string)
    requires '&' !in s
    ensures NoEntity(s)
  {
    forall i | 0 <= i && i + 4 <= |s|
      ensures !EntityAt(s, i)
    {
      assert s[i..i + 4][0] == s[i];
    }
  }

  /** For captured text without a literal entity, `Unescape` undoes the
      sanitizing. This covers every `&` that does not begin `&lt;` or
      `&gt;`. A browser decodes every character reference, not only these
      two, so this is a statement about `Unescape` and not about the screen. */
  lemma SanitizeRoundTrip(s: string)
    requires NoEntity(s)
    ensures Unescape(Sanitize(s)) == s
  {
    SanitizeThenText(s, []);
    assert Sanitize(s) + [] == Sanitize(s);
  }

  /** Decoding reads a sanitized prefix without literal entities back
      exactly, and then carries on with whatever follows it, provided that
      does not continue an entity. */
  lemma SanitizeThenText(s: string, rest: string)
    requires NoEntity(s)
    requires |rest| > 0 ==> !EntityTail(rest[0])
    ensures Unescape(Sanitize(s) + rest) == s + Unescape(rest)
  {
    SanitizeIsEscaped(s);
    EscapedThenText(s, rest);
  }

  lemma {:induction false} EscapedThenText(s: string, rest: string)
    requires NoEntity(s)
    requires |rest| > 0 ==> !EntityTail(rest[0])
    ensures Unescape(Escaped(s) + rest) == s + Unescape(rest)
  {
    if |s| == 0 {
      assert Escaped(s) + rest == rest;
    } else {
      var c, cs := s[0], s[1..];
      var tail := Escaped(cs) + rest;
      NoEntityTail(s);
      if c == '&' {
        AmpNotEntity(s, rest);
      }
      assert Escaped(s) == EscapeChar(c) + Escaped(cs);
      Associate(EscapeChar(c), Escaped(cs), rest);
      UnescapeStep(c, tail);
      EscapedThenText(cs, rest);
      assert Unescape(Escaped(s) + rest) == [c] + (cs + Unescape(rest));
      assert s == [c] + cs;
      Associate([c], cs, Unescape(rest));
    }
  }

  /** Dropping the first character keeps text free of entities. */
  lemma NoEntityTail(s: string)
    requires |s| > 0 && NoEntity(s)
    ensures NoEntity(s[1..])
  {
    forall i | 0 <= i && i + 4 <= |s[1..]|
      ensures !EntityAt(s[1..], i)
    {
      assert !EntityAt(s, i + 1);
      assert s[1..][i..i + 4] == s[i + 1..i + 5];
    }
  }

  /** A `&` that does not begin an entity is not turned into one by the
      escaping of what follows it. */
  lemma AmpNotEntity(s: string, rest: string)
    requires |s| > 0 && s[0] == '&' && NoEntity(s)
    requires |rest| > 0 ==> !EntityTail(rest[0])
    ensures !ClosesEntity(Escaped(s[1..]) + rest)
  {
    var cs := s[1..];
    EscapedPrefix(cs, rest, LtEntity[1..]);
    EscapedPrefix(cs, rest, GtEntity[1..]);
    assert !EntityAt(s, 0);
    if |cs| >= 3 {
      assert s[0..4] == [s[0]] + cs[..3];
    }
    assert LtEntity == ['&'] + LtEntity[1..] && GtEntity == ['&'] + GtEntity[1..];
  }

  /** Escaping only turns brackets into text starting with `&`, so when the
      escaped text (followed by `rest`) starts with entity characters, so
      does the original. */
  lemma {:induction false} EscapedPrefix(x: string, rest: string, p: string)
    requires forall k :: 0 <= k < |p| ==> EntityTail(p[k])
    requires |rest| > 0 ==> !EntityTail(rest[0])
    ensures |p| <= |Escaped(x) + rest| && (Escaped(x) + rest)[..|p|] == p ==>
              |p| <= |x| && x[..|p|] == p
  {
    var t := Escaped(x) + rest;
    if |p| > 0 && |x| == 0 {
      assert t == rest;
    } else if |p| > 0 {
      var t' := Escaped(x[1..]) + rest;
      assert t == EscapeChar(x[0]) + t';
      EscapedPrefix(x[1..], rest, p[1..]);
      if |p| <= |t| && t[..|p|] == p {
        KeptFirst(x[0], t', p);
        assert x[..|p|] == [x[0]] + x[1..][..|p| - 1];
      }
    }
  }

  /** When an escaped character followed by `t` starts with an entity
      character, that character was kept as it is. */
  lemma KeptFirst(c: char, t: string, p: string)
    requires |p| > 0 && EntityTail(p[0])
    requires |p| <= |EscapeChar(c) + t| && (EscapeChar(c) + t)[..|p|] == p
    ensures c == p[0] && |p| - 1 <= |t| && t[..|p| - 1] == p[1..]
  {
    var e := EscapeChar(c) + t;
    assert e[0] == p[0];
    assert c != '<' && c != '>';
    assert e[1..] == t;
  }

  /** Decoding one escaped character: a bracket comes back from its entity,
      and any other character is read as itself as long as a `&` is not
      followed by the rest of an entity. */
  lemma UnescapeStep(c: char, tail: string)
    requires c == '&' ==> !ClosesEntity(tail)
    ensures Unescape(EscapeChar(c) + tail) == [c] + Unescape(tail)
  {
    var t := EscapeChar(c) + tail;
    if c == '<' {
      assert t[..4] == LtEntity && t[4..] == tail;
    } else if c == '>' {
      assert t[..4] == GtEntity && t[4..] == tail;
    } else {
      assert t[0] == c && t[1..] == tail;
      if |t| >= 4 {
        assert t[..4] == [c] + tail[..3];
      }
    }
  }

  /** Literal text without `&` decodes to itself, followed by the decoding
      of what comes after it. */
  lemma {:induction false} PlainThenText(p: string, rest: string)
    requires '&' !in p
    ensures Unescape(p + rest) == p + Unescape(rest)
  {
    if |p| > 0 {
      var t := p + rest;
      assert t[0] == p[0] && t[1..] == p[1..] + rest;
      assert |t| >= 4 ==> t[..4][0] == p[0];
      PlainThenText(p[1..], rest);
      assert p == [p[0]] + p[1..];
    } else {
      assert p + rest == rest;
    }
  }

  /** Two sanitized parts without literal entities, around a separator that
      has no `&` and cannot continue an entity, decode back under `Unescape`
      to the parts around the separator: the shape of `name: value` and `method url`. */
  lemma SanitizedPairReadsBack(a: string, sep: string, b: string)
    requires NoEntity(a) && NoEntity(b)
    requires '&' !in sep && |sep| > 0 && !EntityTail(sep[0])
    ensures Unescape(Sanitize(a) + sep + Sanitize(b)) == a + sep + b
  {
    assert (sep + Sanitize(b))[0] == sep[0];
    SanitizeThenText(a, sep + Sanitize(b));
    SeparatorReadsBack(sep, b);
    Associate(Sanitize(a), sep, Sanitize(b));
    Associate(a, sep, b);
  }

  lemma SeparatorReadsBack(sep: string, b: string)
    requires '&' !in sep && NoEntity(b)
    ensures Unescape(sep + Sanitize(b)) == sep + b
  {
    PlainThenText(sep, Sanitize(b));
    SanitizeRoundTrip(b);
  }

  lemma Associate(a: string, b: string, c: string)
    ensures a + b + c == a + (b + c)
  {
  }

  /** Without escaping `&` the sanitizer is not injective: a literal `<` and
      the literal text `&lt;` are written into the page identically, which
      is why the round trip above excludes literal entities. */
  lemma SanitizeNotInjective()
    ensures Sanitize("<") == Sanitize("&lt;") == "&lt;"
  {
    SanitizeIsEscaped("<");
    SanitizeIsEscaped("&lt;");
    assert Escaped("<") == "&lt;";
    assert "&lt;"[1..] == "lt;";
    assert "lt;"[1..] == "t;";
    assert "t;"[1..] == ";";
    assert Escaped("&lt;") == "&lt;";
  }

  /** A tag name between angle brackets is written as the name between the
      two entities. */
  lemma SanitizeTag(name: string)
    requires '<' !in name && '>' !in name
    ensures Sanitize("<" + name + ">") == LtEntity + name + GtEntity
  {
    SanitizeIsEscaped("<" + name + ">");
    EscapedAppend("<" + name, ">");
    EscapedAppend("<", name);
    EscapedPlain(name);
    assert Escaped("<") == LtEntity && Escaped(">") == GtEntity;
  }

  /** Example: `<script>` is written as `&lt;script&gt;`. */
  lemma SanitizeScriptTag()
    ensures Sanitize("<script>") == "&lt;script&gt;"
  {
    SanitizeTag("script");
    assert "<" + "script" + ">" == "<script>";
    assert LtEntity + "script" + GtEntity == "&lt;script&gt;";
  }

  /** Text without brackets is its own escaping. */
  lemma {:induction false} EscapedPlain(s: string)
    requires '<' !in s && '>' !in s
    ensures Escaped(s) == s
  {
    if |s| > 0 {
      EscapedPlain(s[1..]);
      assert s == [s[0]] + s[1..];
    }
  }

  /** Escaping works character by character, so it distributes over
      concatenation. */
  lemma {:induction false} EscapedAppend(a: string, b: string)
    ensures Escaped(a + b) == Escaped(a) + Escaped(b)
  {
    if |a| > 0 {
      assert (a + b)[1..] == a[1..] + b;
      EscapedAppend(a[1..], b);
      Associate(EscapeChar(a[0]), Escaped(a[1..]), Escaped(b));
    } else {
      assert a + b == b;
    }
  }
}
