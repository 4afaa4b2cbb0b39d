/**
 The string primitives the appointment view is built from: lower-casing
 (`toLowerCase`), substring search (`includes`) and the relational `<` on
 strings. Characters are compared by code point; lower-casing covers the
 ASCII letters only.
 */
module Text {

  predicate IsUpper(c: char) {
    'A' <= c <= 'Z'
  }

  /** Lower-cases an ASCII capital; every other character is left alone. */
  function LowerChar(c: char): (d: char)
    ensures !IsUpper(d)
    ensures !IsUpper(c) ==> d == c
    ensures IsUpper(c) ==> d as int - c as int == 'a' as int - 'A' as int
  {
    if IsUpper(c) then (c as int + ('a' as int - 'A' as int)) as char else c
  }

  /** `s.toLowerCase()`: same length, each capital lowered, every other character kept. */
  function Lower(s: string): (r: string)
    ensures |r| == |s|
    ensures forall i :: 0 <= i < |r| ==> !IsUpper(r[i])
    ensures forall i :: 0 <= i < |s| && !IsUpper(s[i]) ==> r[i] == s[i]
    ensures forall i :: 0 <= i < |s| && IsUpper(s[i]) ==> r[i] as int == s[i] as int + ('a' as int - 'A' as int)
  {
    seq(|s|, i requires 0 <= i < |s| => LowerChar(s[i]))
  }

  /** Lower-casing twice is lower-casing once. */
  lemma LowerIdempotent(s: string)
    ensures Lower(Lower(s)) == Lower(s)
  {
    var l := Lower(s);
    assert forall i :: 0 <= i < |l| ==> Lower(l)[i] == l[i];
  }

  predicate StartsWith(s: string, prefix: string) {
    |prefix| <= |s| && s[..|prefix|] == prefix
  }

  /** `hay.includes(needle)`, computed by trying every start position in turn. */
  predicate Includes(hay: string, needle: string)
    decreases |hay|
  {
    StartsWith(hay, needle) || (|hay| > 0 && Includes(hay[1..], needle))
  }

  /** `needle` occurs in `hay` starting at index `i`. */
  ghost predicate OccursAt(hay: string, needle: string, i: int) {
    0 <= i && i + |needle| <= |hay| && hay[i..i + |needle|] == needle
  }

  /** A computed match yields an occurrence position. */
  lemma {:induction false} IncludesGivesOccurrence(hay: string, needle: string) returns (i: nat)
    requires Includes(hay, needle)
    ensures OccursAt(hay, needle, i)
    decreases |hay|
  {
    if StartsWith(hay, needle) {
      i := 0;
    } else {
      var j := IncludesGivesOccurrence(hay[1..], needle);
      assert hay[j + 1..j + 1 + |needle|] == hay[1..][j..j + |needle|];
      i := j + 1;
    }
  }

  /** An occurrence at any position is found by the computed search. */
  lemma {:induction false} OccurrenceGivesIncludes(hay: string, needle: string, i: int)
    requires OccursAt(hay, needle, i)
    ensures Includes(hay, needle)
    decreases i
  {
    if i > 0 {
      assert hay[1..][i - 1..i - 1 + |needle|] == hay[i..i + |needle|];
      OccurrenceGivesIncludes(hay[1..], needle, i - 1);
    }
  }

  /** The computed search agrees with the definition of a substring occurrence. */
  lemma IncludesIffOccurs(hay: string, needle: string)
    ensures Includes(hay, needle) <==> exists i :: OccursAt(hay, needle, i)
  {
    if Includes(hay, needle) {
      var i := IncludesGivesOccurrence(hay, needle);
    }
    if i :| OccursAt(hay, needle, i) {
      OccurrenceGivesIncludes(hay, needle, i);
    }
  }

  /** Every string contains the empty string. */
  lemma IncludesEmpty(hay: string)
    ensures Includes(hay, [])
  {
  }

  /**
   The relational `a < b` on strings: `a` is a proper prefix of `b`, or at the
   first position where they differ `a` has the smaller character.
   */
  predicate LexLess(a: string, b: string)
    decreases |a|
  {
    |b| > 0 && (|a| == 0 || (if a[0] == b[0] then LexLess(a[1..], b[1..]) else a[0] < b[0]))
  }

  /**
   `a` differs from `b` first at index `k`, where `a` has the smaller
   character.
   */
  ghost predicate FirstDifferenceLess(a: string, b: string, k: int) {
    0 <= k < |a| && k < |b| && a[..k] == b[..k] && a[k] < b[k]
  }

  /** The two ways `a < b` can hold, written without recursion. */
  ghost predicate LexLessSpec(a: string, b: string) {
    || (|a| < |b| && b[..|a|] == a)
    || exists k :: FirstDifferenceLess(a, b, k)
  }

  lemma {:induction false} LexLessGivesSpec(a: string, b: string)
    requires LexLess(a, b)
    ensures LexLessSpec(a, b)
    decreases |a|
  {
    if |a| == 0 {
      assert b[..0] == a;
    } else if a[0] != b[0] {
      assert FirstDifferenceLess(a, b, 0);
    } else {
      var a', b' := a[1..], b[1..];
      LexLessGivesSpec(a', b');
      if |a'| < |b'| && b'[..|a'|] == a' {
        assert b[..|a|] == [b[0]] + b'[..|a'|];
      } else {
        var k :| FirstDifferenceLess(a', b', k);
        assert a[..k + 1] == [a[0]] + a'[..k];
        assert b[..k + 1] == [b[0]] + b'[..k];
        assert FirstDifferenceLess(a, b, k + 1);
      }
    }
  }

  lemma {:induction false} PrefixGivesLexLess(a: string, b: string)
    requires |a| < |b| && b[..|a|] == a
    ensures LexLess(a, b)
    decreases |a|
  {
    if |a| > 0 {
      assert b[0] == b[..|a|][0];
      assert b[1..][..|a| - 1] == a[1..];
      PrefixGivesLexLess(a[1..], b[1..]);
    }
  }

  lemma {:induction false} DifferenceGivesLexLess(a: string, b: string, k: int)
    requires FirstDifferenceLess(a, b, k)
    ensures LexLess(a, b)
    decreases k
  {
    if k > 0 {
      assert a[0] == a[..k][0] && b[0] == b[..k][0];
      assert a[1..][..k - 1] == a[..k][1..] && b[1..][..k - 1] == b[..k][1..];
      DifferenceGivesLexLess(a[1..], b[1..], k - 1);
    }
  }

  /** The recursive comparison agrees with its closed-form description. */
  lemma LexLessIffSpec(a: string, b: string)
    ensures LexLess(a, b) <==> LexLessSpec(a, b)
  {
    if LexLess(a, b) {
      LexLessGivesSpec(a, b);
    }
    if |a| < |b| && b[..|a|] == a {
      PrefixGivesLexLess(a, b);
    }
    if k :| FirstDifferenceLess(a, b, k) {
      DifferenceGivesLexLess(a, b, k);
    }
  }

  lemma {:induction false} LexLessIrreflexive(a: string)
    ensures !LexLess(a, a)
    decreases |a|
  {
    if |a| > 0 {
      LexLessIrreflexive(a[1..]);
    }
  }

  lemma {:induction false} LexLessAsymmetric(a: string, b: string)
    requires LexLess(a, b)
    ensures !LexLess(b, a)
    decreases |a|
  {
    if |a| > 0 && a[0] == b[0] {
      LexLessAsymmetric(a[1..], b[1..]);
    }
  }

  lemma {:induction false} LexLessTransitive(a: string, b: string, c: string)
    requires LexLess(a, b) && LexLess(b, c)
    ensures LexLess(a, c)
    decreases |a|
  {
    if |a| > 0 && a[0] == b[0] && b[0] == c[0] {
      LexLessTransitive(a[1..], b[1..], c[1..]);
    }
  }

  /** Any two different strings are ordered one way or the other. */
  lemma {:induction false} LexLessTotal(a: string, b: string)
    ensures a == b || LexLess(a, b) || LexLess(b, a)
    decreases |a|
  {
    if |a| > 0 && |b| > 0 && a[0] == b[0] {
      LexLessTotal(a[1..], b[1..]);
      if a[1..] == b[1..] {
        assert a == [a[0]] + a[1..] && b == [b[0]] + b[1..];
      }
    }
  }
}
