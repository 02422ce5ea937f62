/**
 * String helpers the package editor relies on: ordinal prefix and substring
 * tests, the left-to-right replacement of `string.Replace`, ASCII lower-casing
 * for the search box and decimal rendering of instance numbers.
 */
module Text {

  /** `s.StartsWith(prefix)` with ordinal comparison. */
  predicate StartsWith(s: string, prefix: string)
  {
    |prefix| <= |s| && s[..|prefix|] == prefix
  }

  /** A prefix of `s` stays a prefix when `s` is extended. */
  lemma StartsWithExtended(s: string, tail: string, prefix: string)
    requires StartsWith(s, prefix)
    ensures StartsWith(s + tail, prefix)
  {
    assert (s + tail)[..|prefix|] == s[..|prefix|];
  }

  /** A prefix of a prefix of `s` is a prefix of `s`. */
  lemma StartsWithTransitive(s: string, mid: string, prefix: string)
    requires StartsWith(s, mid) && StartsWith(mid, prefix)
    ensures StartsWith(s, prefix)
  {
    assert s[..|mid|][..|prefix|] == s[..|prefix|];
  }

  /** `t` occurs in `s` starting at position `i`. */
  predicate OccursAt(s: string, t: string, i: int)
  {
    0 <= i && i + |t| <= |s| && s[i..i + |t|] == t
  }

  /** `s.Contains(t)` with ordinal comparison. */
  predicate Contains(s: string, t: string)
  {
    exists i | 0 <= i <= |s| - |t| :: OccursAt(s, t, i)
  }

  /**
   * `s.Replace(a, b)`: scans left to right and replaces every non-overlapping
   * occurrence of `a` by `b`.
   */
  function ReplaceAll(s: string, a: string, b: string): string
    requires a != ""
    decreases |s|
  {
    if |s| < |a| then s
    else if s[..|a|] == a then b + ReplaceAll(s[|a|..], a, b)
    else [s[0]] + ReplaceAll(s[1..], a, b)
  }

  /** How many occurrences `ReplaceAll` rewrites. */
  function Replacements(s: string, a: string): nat
    requires a != ""
    decreases |s|
  {
    if |s| < |a| then 0
    else if s[..|a|] == a then 1 + Replacements(s[|a|..], a)
    else Replacements(s[1..], a)
  }

  /** A string that does not contain the search text is left as it is. */
  lemma {:induction false} ReplaceAllWithoutOccurrence(s: string, a: string, b: string)
    requires a != "" && !Contains(s, a)
    ensures ReplaceAll(s, a, b) == s
    decreases |s|
  {
    if |s| >= |a| {
      assert !OccursAt(s, a, 0);
      assert s[..|a|] != a;
      forall i | OccursAt(s[1..], a, i) ensures false {
        assert s[1..][i..i + |a|] == s[i + 1..i + 1 + |a|];
        assert OccursAt(s, a, i + 1);
      }
      ReplaceAllWithoutOccurrence(s[1..], a, b);
    }
  }

  /** Every rewritten occurrence changes the length by `|b| - |a|`. */
  lemma {:induction false} ReplaceAllLength(s: string, a: string, b: string)
    requires a != ""
    ensures |ReplaceAll(s, a, b)| == |s| + Replacements(s, a) * (|b| - |a|)
    decreases |s|
  {
    if |s| >= |a| {
      var d := |b| - |a|;
      if s[..|a|] == a {
        var rest := s[|a|..];
        ReplaceAllLength(rest, a, b);
        Distribute(Replacements(rest, a), d);
      } else {
        ReplaceAllLength(s[1..], a, b);
      }
    }
  }

  lemma Distribute(k: int, d: int)
    ensures (1 + k) * d == d + k * d
  {
  }

  /** A string that contains the search text has at least one rewrite. */
  lemma {:induction false} ContainsMeansReplaced(s: string, a: string)
    requires a != "" && Contains(s, a)
    ensures Replacements(s, a) >= 1
    decreases |s|
  {
    var i :| 0 <= i <= |s| - |a| && OccursAt(s, a, i);
    if s[..|a|] != a {
      assert i > 0;
      assert s[1..][i - 1..i - 1 + |a|] == s[i..i + |a|];
      assert OccursAt(s[1..], a, i - 1);
      ContainsMeansReplaced(s[1..], a);
    }
  }

  /**
   * So a name that contains the search text and whose replacement text has a
   * different length is really rewritten.
   */
  lemma ContainingNameIsRewritten(s: string, a: string, b: string)
    requires a != "" && Contains(s, a) && |a| != |b|
    ensures ReplaceAll(s, a, b) != s
  {
    ReplaceAllLength(s, a, b);
    ContainsMeansReplaced(s, a);
    ProductNonZero(Replacements(s, a), |b| - |a|);
  }

  lemma ProductNonZero(k: int, d: int)
    requires k >= 1 && d != 0
    ensures k * d != 0
  {
    if d > 0 {
      assert k * d >= d;
    } else {
      assert k * d <= d;
    }
  }

  /**
   * ASCII lower-casing, as `ToLower` does on ASCII text: a capital letter
   * becomes the small letter 32 code points above it, anything else stays,
   * and the result is never a capital letter.
   */
  function LowerChar(c: char): (r: char)
    ensures 'A' <= c <= 'Z' ==> 'a' <= r <= 'z' && r as int == c as int + 32
    ensures !('A' <= c <= 'Z') ==> r == c
    ensures !('A' <= r <= 'Z')
  {
    if 'A' <= c <= 'Z' then (c as int + 32) as char else c
  }

  function Lower(s: string): (r: string)
    ensures |r| == |s|
    ensures forall i :: 0 <= i < |s| ==> r[i] == LowerChar(s[i])
  {
    seq(|s|, i requires 0 <= i < |s| => LowerChar(s[i]))
  }

  /** `a` and `b` are the same letter up to ASCII case. */
  predicate SameIgnoringCase(a: char, b: char)
  {
    || a == b
    || ('A' <= a <= 'Z' && b as int == a as int + 32)
    || ('A' <= b <= 'Z' && a as int == b as int + 32)
  }

  /** Two characters lower-case alike exactly when they agree up to ASCII case. */
  lemma LowerCharAlike(a: char, b: char)
    ensures LowerChar(a) == LowerChar(b) <==> SameIgnoringCase(a, b)
  {
  }

  /** Lower-casing twice is lower-casing once. */
  lemma LowerIdempotent(s: string)
    ensures Lower(Lower(s)) == Lower(s)
  {
  }

  /** Two texts lower-case alike exactly when they agree letter by letter up to ASCII case. */
  lemma LowerAlike(s: string, t: string)
    ensures Lower(s) == Lower(t) <==>
              |s| == |t| && forall i :: 0 <= i < |s| ==> SameIgnoringCase(s[i], t[i])
  {
  }

  function DigitChar(d: nat): char
    requires d < 10
  {
    "0123456789"[d]
  }

  /** Decimal rendering of a non-negative number, without leading zeros. */
  function NatToString(n: nat): (r: string)
    ensures |r| >= 1
    ensures forall i :: 0 <= i < |r| ==> '0' <= r[i] <= '9'
    decreases n
  {
    if n < 10 then [DigitChar(n)] else NatToString(n / 10) + [DigitChar(n % 10)]
  }

  lemma DigitCharInjective(x: nat, y: nat)
    requires x < 10 && y < 10 && DigitChar(x) == DigitChar(y)
    ensures x == y
  {
  }

  /** Different numbers render differently. */
  lemma {:induction false} NatToStringInjective(a: nat, b: nat)
    requires NatToString(a) == NatToString(b)
    ensures a == b
    decreases a
  {
    var ra := NatToString(a);
    if a < 10 && b < 10 {
      DigitCharInjective(a, b);
    } else if a >= 10 && b >= 10 {
      assert ra[..|ra| - 1] == NatToString(a / 10);
      assert NatToString(b)[..|ra| - 1] == NatToString(b / 10);
      NatToStringInjective(a / 10, b / 10);
      DigitCharInjective(a % 10, b % 10);
    }
  }
}
