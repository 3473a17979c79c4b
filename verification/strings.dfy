/**
 String primitives the popup takes from JavaScript: global replacement of one
 character, `indexOf`, `Array.prototype.join`, and ASCII case mapping.
 Strings are sequences of characters; nothing here is locale dependent.
 */
module Strings {

  /* ---------------------------------------------------------------- replace */

  /** `s` with every occurrence of `c` replaced by `rep`, left to right: the
      effect of `s.replace(/c/g, rep)` for a one-character pattern. */
  function ReplaceAll(s: string, c: char, rep: string): (r: string)
    ensures c !in s ==> r == s
    ensures c !in rep ==> c !in r
    ensures forall d :: d in r ==> d in rep || (d in s && d != c)
    ensures forall d :: d in s && d != c ==> d in r
  {
    if |s| == 0 then []
    else (if s[0] == c then rep else [s[0]]) + ReplaceAll(s[1..], c, rep)
  }

  /** Replacement of a single character: `rep` when it is `c`, otherwise the
      character itself. With `ReplaceAllAppend` this pins down the result of
      every input. */
  lemma ReplaceAllOne(x: char, c: char, rep: string)
    ensures ReplaceAll([x], c, rep) == if x == c then rep else [x]
  {
  }

  /** Replacement works piece by piece: it distributes over concatenation. */
  lemma {:induction false} ReplaceAllAppend(a: string, b: string, c: char, rep: string)
    ensures ReplaceAll(a + b, c, rep) == ReplaceAll(a, c, rep) + ReplaceAll(b, c, rep)
  {
    if |a| == 0 {
      assert a + b == b;
    } else {
      assert (a + b)[1..] == a[1..] + b;
      ReplaceAllAppend(a[1..], b, c, rep);
    }
  }

  /* ------------------------------------------------------------------ search */

  /** `needle` occurs in `hay` starting at index `i`. */
  predicate OccursAt(needle: string, hay: string, i: int) {
    0 <= i && i + |needle| <= |hay| && hay[i..i + |needle|] == needle
  }

  /** `needle` is a contiguous substring of `hay`. */
  ghost predicate Contains(hay: string, needle: string) {
    exists i :: OccursAt(needle, hay, i)
  }

  /** First index at or after `from` where `needle` occurs in `hay`, or -1. */
  function IndexFrom(hay: string, needle: string, from: nat): (r: int)
    decreases |hay| - from
    ensures r == -1 || (from <= r && OccursAt(needle, hay, r))
    ensures r == -1 ==> forall j :: from <= j ==> !OccursAt(needle, hay, j)
    ensures r >= 0 ==> forall j :: from <= j < r ==> !OccursAt(needle, hay, j)
  {
    if from + |needle| > |hay| then -1
    else if hay[from..from + |needle|] == needle then from
    else IndexFrom(hay, needle, from + 1)
  }

  /** `hay.indexOf(needle)`: the first index where `needle` occurs, or -1;
      an empty needle is found at index 0. */
  function IndexOf(hay: string, needle: string): (r: int)
    ensures r >= -1
    ensures r >= 0 ==> OccursAt(needle, hay, r)
    ensures r >= 0 ==> forall j :: 0 <= j < r ==> !OccursAt(needle, hay, j)
    ensures r == -1 <==> !Contains(hay, needle)
  {
    IndexFrom(hay, needle, 0)
  }

  /** The empty string is found at index 0 of every string. */
  lemma IndexOfEmpty(hay: string)
    ensures IndexOf(hay, "") == 0
  {
    assert OccursAt("", hay, 0);
  }

  /** A suffix of `hay` is found by `indexOf`. */
  lemma SuffixIsFound(hay: string, suffix: string)
    requires |suffix| <= |hay| && hay[|hay| - |suffix|..] == suffix
    ensures IndexOf(hay, suffix) >= 0
  {
    assert OccursAt(suffix, hay, |hay| - |suffix|);
  }

  /** Text that sits anywhere inside `hay` is found by `indexOf`. */
  lemma InfixIsFound(head: string, needle: string, tail: string)
    ensures IndexOf(head + needle + tail, needle) >= 0
  {
    assert (head + needle + tail)[|head|..|head| + |needle|] == needle;
    assert OccursAt(needle, head + needle + tail, |head|);
  }

  /** A needle longer than `hay` is never found. */
  lemma LongerIsNotFound(hay: string, needle: string)
    requires |needle| > |hay|
    ensures IndexOf(hay, needle) == -1
  {
  }

  /* -------------------------------------------------------------------- join */

  /** Sum of the lengths of `pieces`. */
  function TotalLength(pieces: seq<string>): nat {
    if |pieces| == 0 then 0 else |pieces[0]| + TotalLength(pieces[1..])
  }

  /** `pieces.join(sep)`: the pieces in order with `sep` between neighbours. */
  function Join(pieces: seq<string>, sep: string): (r: string)
    ensures |pieces| == 0 ==> r == ""
    ensures |pieces| > 0 ==> |r| == TotalLength(pieces) + (|pieces| - 1) * |sep|
    ensures |pieces| > 0 ==> pieces[0] <= r
  {
    if |pieces| == 0 then ""
    else if |pieces| == 1 then pieces[0]
    else pieces[0] + sep + Join(pieces[1..], sep)
  }

  /** Joining one more piece appends the separator and that piece: the join
      is the same as accumulating a running string left to right. */
  lemma {:induction false} JoinSnoc(pieces: seq<string>, p: string, sep: string)
    requires |pieces| > 0
    ensures Join(pieces + [p], sep) == Join(pieces, sep) + sep + p
  {
    if |pieces| == 1 {
      assert pieces + [p] == [pieces[0], p];
      assert [pieces[0], p][1..] == [p];
    } else {
      assert (pieces + [p])[1..] == pieces[1..] + [p];
      JoinSnoc(pieces[1..], p, sep);
    }
  }

  /* -------------------------------------------------------------- ASCII case */

  predicate IsUpper(c: char) { 'A' <= c <= 'Z' }

  predicate IsLower(c: char) { 'a' <= c <= 'z' }

  /** ASCII lower case of one character; everything else is unchanged. */
  function LowerChar(c: char): (r: char)
    ensures !IsUpper(r)
    ensures IsUpper(c) ==> IsLower(r) && r as int == c as int + 32
    ensures !IsUpper(c) ==> r == c
  {
    if IsUpper(c) then (c as int + 32) as char else c
  }

  /** ASCII upper case of one character; everything else is unchanged. */
  function UpperChar(c: char): (r: char)
    ensures !IsLower(r)
    ensures IsLower(c) ==> IsUpper(r) && r as int == c as int - 32
    ensures !IsLower(c) ==> r == c
  {
    if IsLower(c) then (c as int - 32) as char else c
  }

  /** `s.toLowerCase()` restricted to ASCII letters. */
  function Lower(s: string): (r: string)
    ensures |r| == |s|
    ensures forall i :: 0 <= i < |s| ==> r[i] == LowerChar(s[i])
    ensures forall i :: 0 <= i < |s| ==> !IsUpper(r[i])
    ensures forall i :: 0 <= i < |s| && !IsUpper(s[i]) ==> r[i] == s[i]
    ensures forall i :: 0 <= i < |s| && IsUpper(s[i]) ==> UpperChar(r[i]) == s[i]
  {
    if |s| == 0 then [] else [LowerChar(s[0])] + Lower(s[1..])
  }

  /** Text with no ASCII capital is its own lower case. */
  lemma LowerOfLowerCase(s: string)
    requires forall i :: 0 <= i < |s| ==> !IsUpper(s[i])
    ensures Lower(s) == s
  {
  }

  /** Lower-casing works character by character, so it distributes over
      concatenation. */
  lemma LowerAppend(a: string, b: string)
    ensures Lower(a + b) == Lower(a) + Lower(b)
  {
    assert forall i :: 0 <= i < |a + b| ==> Lower(a + b)[i] == (Lower(a) + Lower(b))[i];
  }

  /** Lower-casing twice is lower-casing once. */
  lemma LowerIdempotent(s: string)
    ensures Lower(Lower(s)) == Lower(s)
  {
  }
}
