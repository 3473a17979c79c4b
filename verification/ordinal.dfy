/**
 Ordinal string comparison: JavaScript's relational `>` on two strings
 compares them character by character, and a proper prefix sorts first.
 The header comparator is the three-way function built from it.
 */
module Ordinal {

  /** `a < b` on strings. */
  predicate Less(a: string, b: string)
    decreases |a|
  {
    |b| > 0 && (|a| == 0 || a[0] < b[0] || (a[0] == b[0] && Less(a[1..], b[1..])))
  }

  /** The comparator passed to `sort` for request and response headers:
      1 when `a > b`, -1 when `b > a`, otherwise 0. */
  function Compare(a: string, b: string): (r: int)
    ensures r == 1 || r == 0 || r == -1
    ensures r == 1 <==> Less(b, a)
  {
    if Less(b, a) then 1 else if Less(a, b) then -1 else 0
  }

  lemma {:induction false} LessIrreflexive(a: string)
    ensures !Less(a, a)
  {
    if |a| > 0 {
      LessIrreflexive(a[1..]);
    }
  }

  lemma {:induction false} LessAsymmetric(a: string, b: string)
    ensures !(Less(a, b) && Less(b, a))
  {
    if |a| > 0 && |b| > 0 && a[0] == b[0] {
      LessAsymmetric(a[1..], b[1..]);
    }
  }

  /** Any two strings are equal or one is strictly less than the other. */
  lemma {:induction false} LessTrichotomy(a: string, b: string)
    ensures Less(a, b) || a == b || Less(b, a)
  {
    if |a| > 0 && |b| > 0 && a[0] == b[0] {
      LessTrichotomy(a[1..], b[1..]);
      if a[1..] == b[1..] {
        assert a == [a[0]] + a[1..] && b == [b[0]] + b[1..];
      }
    }
  }

  lemma {:induction false} LessTransitive(a: string, b: string, c: string)
    requires Less(a, b) && Less(b, c)
    ensures Less(a, c)
  {
    if |a| > 0 && a[0] == b[0] && b[0] == c[0] {
      LessTransitive(a[1..], b[1..], c[1..]);
    }
  }

  /** The comparator answers 0 exactly for equal names, so ties are the
      headers that share a name. */
  lemma CompareZeroIffEqual(a: string, b: string)
    ensures Compare(a, b) == 0 <==> a == b
  {
    LessTrichotomy(a, b);
    LessIrreflexive(a);
  }

  /** Swapping the arguments negates the answer. */
  lemma CompareAntisymmetric(a: string, b: string)
    ensures Compare(a, b) == -Compare(b, a)
  {
    LessAsymmetric(a, b);
  }

  /** "Not after" is transitive, so the comparator is consistent. */
  lemma CompareTransitive(a: string, b: string, c: string)
    requires Compare(a, b) <= 0 && Compare(b, c) <= 0
    ensures Compare(a, c) <= 0
  {
    if Less(c, a) {
      LessTrichotomy(a, b);
      if Less(a, b) {
        LessTransitive(c, a, b);
      }
    }
  }
}
